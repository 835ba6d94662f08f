/** AEAD_CHACHA20_POLY1305 without associated data (RFC 8439, section 2.8). */
module Aead {
  import opened Limbs
  import opened Modular
  import Bits
  import ChaCha
  import PolyMath
  import Poly1305

  // ---------------------------------------------------------------- specification

  /** What is authenticated: the ciphertext, zeros up to a block boundary, and two 64-bit lengths. */
  ghost function MacData(ct: seq<byte>): (m: seq<byte>) {
    ct + Zeros((16 - |ct| % 16) % 16) + Bytes(0, 8) + Bytes(|ct|, 8)
  }

  ghost function MacTag(key: seq<byte>, nonce: seq<byte>, ct: seq<byte>): (t: seq<byte>)
    requires |key| == 32 && |nonce| == 12
    ensures |t| == 16
  {
    Bytes(Poly1305.Tag(ChaCha.Block(key, 0, nonce)[..32], MacData(ct)), 16)
  }

  datatype Opened = Plain(text: seq<byte>) | Rejected

  ghost function Sealed(key: seq<byte>, nonce: seq<byte>, pt: seq<byte>): (r: (seq<byte>, seq<byte>))
    requires |key| == 32 && |nonce| == 12
    ensures |r.0| == |pt| && |r.1| == 16
  {
    var ct := ChaCha.Stream(key, 1, nonce, pt);
    (ct, MacTag(key, nonce, ct))
  }

  ghost function Open(key: seq<byte>, nonce: seq<byte>, ct: seq<byte>, tag: seq<byte>): (r: Opened)
    requires |key| == 32 && |nonce| == 12
  {
    if tag == MacTag(key, nonce, ct) then Plain(ChaCha.Stream(key, 1, nonce, ct)) else Rejected
  }

  /** Opening yields `pt` for exactly what sealing `pt` produced, at every length. */
  lemma OpenIffSealed(key: seq<byte>, nonce: seq<byte>, ct: seq<byte>, tag: seq<byte>, pt: seq<byte>)
    requires |key| == 32 && |nonce| == 12
    ensures Open(key, nonce, ct, tag) == Plain(pt) <==> (ct, tag) == Sealed(key, nonce, pt)
  {
    hide MacTag, ChaCha.Stream;
    ChaCha.StreamTwice(key, 1, nonce, ct);
    ChaCha.StreamTwice(key, 1, nonce, pt);
  }

  // ---------------------------------------------------------------- what a tag binds

  /** Each ciphertext is authenticated as itself. */
  lemma MacDataInjective(a: seq<byte>, b: seq<byte>)
    requires |a| < 0x1_0000_0000_0000_0000 && |b| < 0x1_0000_0000_0000_0000
    ensures MacData(a) == MacData(b) <==> a == b
  {
    if MacData(a) == MacData(b) {
      hide Bytes;
      MacDataParts(a);
      MacDataParts(b);
      LengthsInjective(|a|, |b|);
      assert MacData(a)[..|a|] == a && MacData(b)[..|b|] == b;
    }
  }

  lemma MacDataParts(ct: seq<byte>)
    ensures |MacData(ct)| >= 16 && MacData(ct)[|MacData(ct)| - 8..] == Bytes(|ct|, 8)
    ensures |MacData(ct)| >= |ct| && MacData(ct)[..|ct|] == ct
  {
    hide Bytes;
  }

  lemma LengthsInjective(m: nat, n: nat)
    requires m < 0x1_0000_0000_0000_0000 && n < 0x1_0000_0000_0000_0000 && Bytes(m, 8) == Bytes(n, 8)
    ensures m == n
  {
    PowAdd(256, 4, 4);
    assert Pow(256, 4) == 0x1_0000_0000;
    BytesValue(m, 8);
    BytesValue(n, 8);
  }

  /** r and s: the two halves of the first 32 bytes of keystream block 0, r clamped. */
  ghost function OneTimeR(key: seq<byte>, nonce: seq<byte>): (r: int)
    requires |key| == 32 && |nonce| == 12
  {
    Val(Poly1305.Clamp(ChaCha.Block(key, 0, nonce)[..16]), 256)
  }

  ghost function OneTimeS(key: seq<byte>, nonce: seq<byte>): (s: int)
    requires |key| == 32 && |nonce| == 12
  {
    Val(ChaCha.Block(key, 0, nonce)[16..32], 256)
  }

  /** RFC 8439 section 2.8.1: ciphertext, zeros to a multiple of 16, and the lengths of nothing and of the ciphertext. */
  ghost function Authenticated(ct: seq<byte>): (m: seq<byte>) {
    ct + Zeros(if |ct| % 16 == 0 then 0 else 16 - |ct| % 16) + Bytes(0, 8) + Bytes(|ct|, 8)
  }

  /** The accumulator of an authenticated ciphertext. */
  ghost function Sum(key: seq<byte>, nonce: seq<byte>, ct: seq<byte>): (x: int)
    requires |key| == 32 && |nonce| == 12
  {
    Poly1305.PowerSum(OneTimeR(key, nonce), Poly1305.Coefficients(Authenticated(ct))) % PolyMath.PP
  }

  lemma TagValue(key: seq<byte>, nonce: seq<byte>, ct: seq<byte>)
    requires |key| == 32 && |nonce| == 12
    ensures Val(MacTag(key, nonce, ct), 256) == (Sum(key, nonce, ct) + OneTimeS(key, nonce)) % Poly1305.TWO128
  {
    hide ChaCha.Block, Bytes, Zeros, Poly1305.Accumulator, Poly1305.Clamp, Poly1305.PowerSum, Poly1305.Coefficients, Val;
    var k := ChaCha.Block(key, 0, nonce)[..32];
    assert k[..16] == ChaCha.Block(key, 0, nonce)[..16] && k[16..] == ChaCha.Block(key, 0, nonce)[16..32];
    AuthenticatedIs(ct);
    Poly1305.AccumulatorIsPolynomial(OneTimeR(key, nonce), MacData(ct));
    var t := Poly1305.Tag(k, MacData(ct));
    Poly1305.Pow256Sixteen();
    BytesValue(t, 16);
  }

  /**
   * What opens: exactly a tag that is the polynomial of RFC 8439 section 2.5 in the blocks of
   * ciphertext, zero fill and lengths, at r modulo 2^130 - 5, plus s modulo 2^128.
   */
  lemma AcceptedTag(key: seq<byte>, nonce: seq<byte>, ct: seq<byte>, tag: seq<byte>)
    requires |key| == 32 && |nonce| == 12
    ensures Open(key, nonce, ct, tag).Plain? <==>
      |tag| == 16 && Val(tag, 256) == (Sum(key, nonce, ct) + OneTimeS(key, nonce)) % Poly1305.TWO128
  {
    hide MacTag, ChaCha.Stream, Sum, OneTimeS, Val;
    TagValue(key, nonce, ct);
    SameTag(tag, MacTag(key, nonce, ct));
  }

  lemma SameTag(s: seq<byte>, t: seq<byte>)
    ensures s == t <==> |s| == |t| && Val(s, 256) == Val(t, 256)
  {
    if |s| == |t| && Val(s, 256) == Val(t, 256) {
      ValInjective(s, t, 256);
    }
  }

  /** Two accumulators that no s can tell apart in a tag. */
  ghost predicate Collide(x: int, y: int) {
    (x - y) % Poly1305.TWO128 == 0
  }

  /**
   * One tag opens two ciphertexts exactly if their accumulators collide modulo 2^128; and the
   * polynomials differ whenever the ciphertexts do.
   */
  lemma SharedTagIsCollision(key: seq<byte>, nonce: seq<byte>, a: seq<byte>, b: seq<byte>, tag: seq<byte>)
    requires |key| == 32 && |nonce| == 12 && |a| < 0x1_0000_0000_0000_0000 && |b| < 0x1_0000_0000_0000_0000
    requires Open(key, nonce, a, tag).Plain?
    ensures Open(key, nonce, b, tag).Plain? <==> Collide(Sum(key, nonce, a), Sum(key, nonce, b))
    ensures Poly1305.Coefficients(Authenticated(a)) == Poly1305.Coefficients(Authenticated(b)) <==> a == b
  {
    hide *;
    TagsAgree(key, nonce, a, b, tag);
    MacDataInjective(a, b);
    Poly1305.CoefficientsInjective(Authenticated(a), Authenticated(b));
    AuthenticatedIs(a);
    AuthenticatedIs(b);
  }

  lemma TagsAgree(key: seq<byte>, nonce: seq<byte>, a: seq<byte>, b: seq<byte>, tag: seq<byte>)
    requires |key| == 32 && |nonce| == 12 && Open(key, nonce, a, tag).Plain?
    ensures Open(key, nonce, b, tag).Plain? <==> Collide(Sum(key, nonce, a), Sum(key, nonce, b))
  {
    hide Open, Sum, OneTimeS;
    AcceptedTag(key, nonce, a, tag);
    AcceptedTag(key, nonce, b, tag);
    SameSum(Sum(key, nonce, a), Sum(key, nonce, b), OneTimeS(key, nonce), Poly1305.TWO128);
  }

  lemma AuthenticatedIs(ct: seq<byte>)
    ensures MacData(ct) == Authenticated(ct)
  {
    hide Bytes, Zeros;
  }

  lemma SameSum(x: int, y: int, s: int, m: int)
    requires m > 0
    ensures (x + s) % m == (y + s) % m <==> (x - y) % m == 0
  {
    hide Cong;
    CongIffMod(x + s, y + s, m);
    CongIffMod(x - y, 0, m);
    SameDifference(x, y, s, m);
    ModIsZero(m);
  }

  lemma ModIsZero(m: int)
    requires m > 0
    ensures 0 % m == 0
  {
  }

  lemma SameDifference(x: int, y: int, s: int, m: int)
    ensures Cong(x + s, y + s, m) <==> Cong(x - y, 0, m)
  {
    if Cong(x + s, y + s, m) {
      CongRefl(y + s, m);
      CongSub(x + s, y + s, y + s, y + s, m);
    }
    if Cong(x - y, 0, m) {
      CongRefl(y + s, m);
      CongAdd(x - y, 0, y + s, y + s, m);
    }
  }

  /** RFC 8439 section 2.8: the ciphertext is the plaintext under the keystream from block 1. */
  lemma SealedBytes(key: seq<byte>, nonce: seq<byte>, pt: seq<byte>, i: nat)
    requires |key| == 32 && |nonce| == 12 && i < |pt|
    ensures Sealed(key, nonce, pt).0[i] == Bits.Xor8(pt[i], ChaCha.Block(key, (1 + i / 64) % 0x1_0000_0000, nonce)[i % 64])
  {
    hide ChaCha.Block, MacTag, Bits.Xor8;
  }

  // ---------------------------------------------------------------- the two calls

  /** The updates `aead_seal` and `aead_open` share. */
  method Authenticate(polyKey: seq<byte>, ct: seq<byte>) returns (tag: seq<byte>)
    requires |polyKey| == 32 && |ct| < 0x1_0000_0000_0000_0000
    ensures |tag| == 16 && Val(tag, 256) == Poly1305.Tag(polyKey, MacData(ct))
  {
    hide Poly1305.Tag, Bytes, Poly1305.Authenticator.Absorbed, Val;
    var p := new Poly1305.Authenticator(polyKey);
    if |ct| > 0 {
      p.Update(ct);
      var rem := |ct| % 16;
      if rem != 0 {
        p.Update(Zeros(16 - rem));
      }
    }
    assert p.msg == ct + Zeros((16 - |ct| % 16) % 16);
    var lens := Bytes(0, 8) + Bytes(|ct|, 8);
    p.Update(lens);
    assert p.msg == MacData(ct);
    tag := p.Finish();
  }

  method ComputeTag(key: seq<byte>, nonce: seq<byte>, ct: seq<byte>) returns (tag: seq<byte>)
    requires |key| == 32 && |nonce| == 12 && |ct| < 0x1_0000_0000_0000_0000
    ensures tag == MacTag(key, nonce, ct)
  {
    hide ChaCha.Block, MacData, Bytes;
    var polyKey := ChaCha.Block(key, 0, nonce)[..32];
    tag := Authenticate(polyKey, ct);
    BytesUnique(tag, Poly1305.Tag(polyKey, MacData(ct)));
  }

  /** `aead_seal`; `ct` may be `pt`. */
  method Seal(key: seq<byte>, nonce: seq<byte>, pt: array<byte>, len: nat, ct: array<byte>) returns (tag: seq<byte>)
    requires |key| == 32 && |nonce| == 12 && len < 0x1_0000_0000_0000_0000
    requires len <= pt.Length && len <= ct.Length
    modifies ct
    ensures (ct[..len], tag) == Sealed(key, nonce, old(pt[..len]))
    ensures ct[len..] == old(ct[len..])
  {
    hide MacTag, ChaCha.Stream;
    if len > 0 {
      ChaCha.ChaChaXor(key, 1, nonce, pt, len, ct);
    } else {
      ChaCha.StreamTwice(key, 1, nonce, []);
      assert ct[..len] == [] == ChaCha.Stream(key, 1, nonce, []);
    }
    tag := ComputeTag(key, nonce, ct[..len]);
  }

  /** `aead_open`: on a mismatch not one byte of `pt` changes. */
  method OpenInto(key: seq<byte>, nonce: seq<byte>, ct: array<byte>, len: nat, tag: seq<byte>, pt: array<byte>)
    returns (ok: bool)
    requires |key| == 32 && |nonce| == 12 && |tag| == 16 && len < 0x1_0000_0000_0000_0000
    requires len <= ct.Length && len <= pt.Length
    modifies pt
    ensures ok <==> old(Open(key, nonce, ct[..len], tag)).Plain?
    ensures ok ==> old(Open(key, nonce, ct[..len], tag)) == Plain(pt[..len]) && pt[len..] == old(pt[len..])
    ensures !ok ==> pt[..] == old(pt[..])
  {
    hide MacTag, ChaCha.Stream;
    var expected := ComputeTag(key, nonce, ct[..len]);
    var diff: byte := 0;
    for i := 0 to 16
      invariant diff == 0 <==> expected[..i] == tag[..i]
    {
      diff := Bits.Or8(diff, Bits.Xor8(expected[i], tag[i]));
      assert expected[..i + 1] == expected[..i] + [expected[i]] && tag[..i + 1] == tag[..i] + [tag[i]];
    }
    assert expected[..16] == expected && tag[..16] == tag;
    if diff != 0 {
      return false;
    }
    if len > 0 {
      ChaCha.ChaChaXor(key, 1, nonce, ct, len, pt);
    } else {
      assert pt[..len] == [] == ct[..len] == ChaCha.Stream(key, 1, nonce, []);
    }
    return true;
  }
}
