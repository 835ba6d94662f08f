/** Signature verification (include/keylight/ed25519.hpp:327-338, 431-489; RFC 8032, section 5.1.7). */
module Ed25519 {
  import opened Limbs
  import opened Modular
  import opened Field25519
  import opened Curve
  import opened Edwards
  import opened Fields
  import opened Scalars
  import opened Sha2
  import Bits
  import Hashers
  import ScalarL

  // ---------------------------------------------------------------- the base point

  const BX: int := 0x216936d3_cd6e53fe_c0a4e231_fdd6dc5c_692cc760_9525a7b2_c9562d60_8f25d51a
  const BY: int := 0x66666666_66666666_66666666_66666666_66666666_66666666_66666666_66666658

  function KBX(): (s: seq<i64>)
    ensures Normal(s)
  {
    [0xd51a, 0x8f25, 0x2d60, 0xc956, 0xa7b2, 0x9525, 0xc760, 0x692c,
     0xdc5c, 0xfdd6, 0xe231, 0xc0a4, 0x53fe, 0xcd6e, 0x36d3, 0x2169]
  }

  function KBY(): (s: seq<i64>)
    ensures Normal(s)
  {
    [0x6658, 0x6666, 0x6666, 0x6666, 0x6666, 0x6666, 0x6666, 0x6666,
     0x6666, 0x6666, 0x6666, 0x6666, 0x6666, 0x6666, 0x6666, 0x6666]
  }

  lemma KBXElem()
    ensures Loose(KBX()) && Elem(KBX()) == BX
  {
    LimbConstant(KBX(), BX);
  }

  lemma KBYElem()
    ensures Loose(KBY()) && Elem(KBY()) == BY
  {
    LimbConstant(KBY(), BY);
  }

  // The product of the two coordinates modulo p.
  const BT: int := 0x67875f0f_d78b7665_66ea4e8e_64abe37d_20f09f80_775152f5_6dde8ab3_a5b7dda3

  ghost function Base(): Ext {
    Ext(BX, BY, 1, FMul(BX, BY))
  }

  lemma BaseProduct()
    ensures FMul(BX, BY) == BT
  {
    QuotRem(BX * BY, P, 12089777079628320618000921127670825209163210154433485764836890627159878209761, BT);
  }

  /** RFC 8032 section 5.1: the base point has y = 4/5 and the even x. */
  lemma BaseIsFourFifths()
    ensures (5 * BY - 4) % P == 0 && BX % 2 == 0
  {
  }

  /** The base point is on the curve: the two sides differ by a multiple of p. */
  lemma BaseOnCurve()
    ensures OnCurve(Base(), ED, P)
  {
    BaseProduct();
    CongBy(BX * BY, BT * 1, 12089777079628320618000921127670825209163210154433485764836890627159878209761, P);
    CongBy(Side(BY, BX, -1), Side(1, BT, ED),
      -1404995416558591703935402335071871497660573215803886088007472604973677187509378205875315662149191623813929323558907999434574481479439670300926143553417440, P);
  }

  // ---------------------------------------------------------------- scalar multiples of points

  /** [s]Q as the ladder computes it. */
  ghost function Multiple25519(q: Ext, s: seq<byte>): Ext
    requires |s| == 32
  {
    Ladder(Adder(ED2, P), NEUTRAL, q, s, 0).0
  }

  method NewPoint() returns (p: Point)
    ensures p.Shape() && fresh(p) && fresh(p.x) && fresh(p.y) && fresh(p.z) && fresh(p.t)
  {
    var x, y, z, t := new i64[16](_ => 0), new i64[16](_ => 0), new i64[16](_ => 0), new i64[16](_ => 0);
    p := new Point(x, y, z, t);
  }

  method NewOne() returns (a: array<i64>)
    ensures fresh(a) && a.Length == 16 && Within(a[..], -SMALL, SMALL) && Elem(a[..]) == 1
  {
    a := new i64[16](k => if k == 0 then 1 else 0);
    SmallElem(a[..], 1);
  }

  method NewBase() returns (q: Point)
    ensures q.Valid() && q.Value() == Base()
    ensures fresh(q) && fresh(q.x) && fresh(q.y) && fresh(q.z) && fresh(q.t)
  {
    hide Elem, Val;
    KBXElem();
    KBYElem();
    var x := NewGf(KBX(), BX);
    var y := NewGf(KBY(), BY);
    hide KBX, KBY;
    var one := NewOne();
    var t := new i64[16](_ => 0);
    GfMul(t, x, y);
    q := new Point(x, y, one, t);
  }

  /** `pt_scalarbase`. */
  method PtScalarBase(s: seq<byte>) returns (p: Point)
    requires |s| == 32
    ensures p.Valid() && p.Value() == Multiple25519(Base(), s)
    ensures fresh(p) && fresh(p.x) && fresh(p.y) && fresh(p.z) && fresh(p.t)
  {
    hide Base, Ladder;
    var q := NewBase();
    p := NewPoint();
    PtScalarMult(p, q, s);
  }

  // ---------------------------------------------------------------- the verdict

  /** The digest of R, the key and the message, read as a number modulo the group order, in 32 bytes. */
  ghost function Challenge(f: Compression, msg: seq<byte>, sig: seq<byte>, key: seq<byte>): (h: seq<byte>)
    requires |sig| == 64 && |key| == 32
    ensures |h| == 32
  {
    Bytes(Val(Digest(f, sig[..32] + key + msg), 256) % ScalarL.L, 32)
  }

  ghost function Digest(f: Compression, m: seq<byte>): (d: seq<byte>)
    ensures |d| == 64
  {
    WordBytes(WordList(Counted(f, Hashers.Start512(), m, 128, 16)), 8)
  }

  /** [S]B + [h](-A). */
  ghost function Recomputed(f: Compression, msg: seq<byte>, sig: seq<byte>, key: seq<byte>): Ext
    requires |sig| == 64 && |key| == 32
  {
    AddExt(Multiple25519(Base(), sig[32..]), Multiple25519(Unpacked(key), Challenge(f, msg, sig, key)), ED2, P)
  }

  ghost predicate Accepts(f: Compression, msg: seq<byte>, sig: seq<byte>, key: seq<byte>)
    requires |sig| == 64 && |key| == 32
  {
    && sig[63] < 32
    && Root25519(FoundRoot(EncodedY(key)), EncodedY(key))
    && Val(sig[..32], 256) == Encoded(Recomputed(f, msg, sig, key))
  }

  method HashAll(f: Compression, msg: seq<byte>, sig: seq<byte>, key: seq<byte>) returns (h: seq<byte>)
    requires |sig| == 64 && |key| == 32
    ensures h == Digest(f, sig[..32] + key + msg)
  {
    hide Counted, WordBytes, Hashers.Start512;
    var ctx := new Hashers.Sha512(f);
    ctx.Update(sig[..32] + key);
    assert ctx.msg == sig[..32] + key;
    if |msg| > 0 {
      ctx.Update(msg);
    }
    assert ctx.msg == sig[..32] + key + msg;
    h := ctx.Final();
  }

  method ComputeChallenge(f: Compression, msg: seq<byte>, sig: seq<byte>, key: seq<byte>) returns (h: seq<byte>)
    requires |sig| == 64 && |key| == 32
    ensures h == Challenge(f, msg, sig, key)
  {
    hide Digest, Bytes;
    var hram := HashAll(f, msg, sig, key);
    var r := ScalarL.KlReduce(hram);
    h := r[..];
    BytesUnique(h, Val(hram, 256) % ScalarL.L);
  }

  method CopyPoint(a: Point) returns (b: Point)
    requires a.Valid()
    ensures b.Valid() && b.Value() == a.Value()
    ensures fresh(b) && fresh(b.x) && fresh(b.y) && fresh(b.z) && fresh(b.t)
  {
    b := NewPoint();
    CopyLimbs(b.x, a.x);
    CopyLimbs(b.y, a.y);
    CopyLimbs(b.z, a.z);
    CopyLimbs(b.t, a.t);
  }

  /** `kl_ct_eq32`: no early exit. */
  method Equal32(a: seq<byte>, b: seq<byte>) returns (same: bool)
    requires |a| == 32 && |b| == 32
    ensures same <==> a == b
  {
    hide Bits.Xor8, Bits.Or8;
    var diff: byte := 0;
    for i := 0 to 32
      invariant diff == 0 <==> a[..i] == b[..i]
    {
      diff := Bits.Or8(diff, Bits.Xor8(a[i], b[i]));
      assert a[..i + 1] == a[..i] + [a[i]] && b[..i + 1] == b[..i] + [b[i]];
    }
    assert a[..32] == a && b[..32] == b;
    same := diff == 0;
  }

  /** `ed25519_verify`. */
  method Verify(f: Compression, msg: seq<byte>, sig: seq<byte>, key: seq<byte>) returns (ok: bool)
    requires |sig| == 64 && |key| == 32
    ensures ok <==> Accepts(f, msg, sig, key)
  {
    hide Challenge, Multiple25519, Unpacked, Encoded, EncodedY, FoundRoot, Root25519, Base, OnCurve;
    if sig[63] >= 32 {
      return false;
    }
    var a, decoded := PtUnpackNeg(key);
    if !decoded {
      return false;
    }
    var r := Recompute(f, msg, sig, key, a);
    var packed := PtPack(r);
    ok := Equal32(sig[..32], packed[..]);
    SameValue(sig[..32], packed[..]);
  }

  method Recompute(f: Compression, msg: seq<byte>, sig: seq<byte>, key: seq<byte>, a: Point) returns (r: Point)
    requires |sig| == 64 && |key| == 32 && a.Valid() && a.Value() == Unpacked(key)
    ensures r.Valid() && r.Value() == Recomputed(f, msg, sig, key)
  {
    hide Challenge, Unpacked, Base, Ladder, AddExt;
    var h := ComputeChallenge(f, msg, sig, key);
    var copy := CopyPoint(a);
    var ha := NewPoint();
    PtScalarMult(ha, copy, h);
    r := PtScalarBase(sig[32..]);
    PtAdd(r, ha);
  }

  lemma SameValue(a: seq<byte>, b: seq<byte>)
    requires |a| == |b|
    ensures a == b <==> Val(a, 256) == Val(b, 256)
  {
    if Val(a, 256) == Val(b, 256) {
      ValInjective(a, b, 256);
    }
  }

  /** The little-endian number the digest of `m` spells. */
  ghost function HashNumber(f: Compression, m: seq<byte>): (h: nat) {
    var d := WordBytes(WordList(Counted(f, Hashers.Start512(), m, 128, 16)), 8);
    ValBound(d, 256);
    Val(d, 256)
  }

  /** FIPS 180-4: big-endian words of the folded padded message, for messages below 2^61 bytes. */
  ghost function FipsNumber(f: Compression, m: seq<byte>): (h: int) {
    Val(WordBytes(WordList(Fips(f, Hashers.Start512(), m, 128, 16)), 8), 256)
  }

  lemma HashIsFips(f: Compression, m: seq<byte>)
    requires |m| < 0x2000_0000_0000_0000
    ensures HashNumber(f, m) == FipsNumber(f, m)
  {
    Hashers.CountedIsFips(f, Hashers.Start512(), m, 128, 16);
  }

  /** The scalar h is the hash of R, the key and the message, in this order, modulo the group order. */
  lemma ChallengeIs(f: Compression, msg: seq<byte>, sig: seq<byte>, key: seq<byte>)
    requires |sig| == 64 && |key| == 32
    ensures Val(Challenge(f, msg, sig, key), 256) == HashNumber(f, sig[..32] + key + msg) % ScalarL.L
    ensures |msg| + 64 < 0x2000_0000_0000_0000 ==>
      Val(Challenge(f, msg, sig, key), 256) == FipsNumber(f, sig[..32] + key + msg) % ScalarL.L
  {
    if |msg| + 64 < 0x2000_0000_0000_0000 {
      HashIsFips(f, sig[..32] + key + msg);
    }
    hide FipsNumber;
    hide Counted, WordBytes, Hashers.Start512, Bytes;
    var n := HashNumber(f, sig[..32] + key + msg);
    assert n == Val(Digest(f, sig[..32] + key + msg), 256);
    hide HashNumber, Digest;
    OrderFits();
    BytesValue(n % ScalarL.L, 32);
  }

  /** The modulus of the field and the order of the group, as RFC 8032 section 5.1 gives them. */
  lemma Moduli()
    ensures P == Pow(2, 255) - 19
    ensures ScalarL.L == Pow(2, 252) + 27742317777372353535851937790883648493
  {
    TwoTo252();
    PowAdd(2, 252, 3);
    assert Pow(2, 3) == 8;
    hide Pow;
  }

  lemma TwoTo64()
    ensures Pow(2, 64) == 0x1_00000000_00000000
  {
    assert Pow(2, 4) == 16 && Pow(2, 8) == 0x100;
    hide Pow;
    PowAdd(2, 8, 8);
    PowAdd(2, 16, 16);
    PowAdd(2, 32, 32);
  }

  lemma TwoTo60()
    ensures Pow(2, 60) == 0x1000_0000_0000_0000
  {
    assert Pow(2, 4) == 16;
    TwoTo64();
    hide Pow;
    PowAdd(2, 60, 4);
  }

  lemma TwoTo252()
    ensures Pow(2, 252) == 0x10000000_00000000_00000000_00000000_00000000_00000000_00000000_00000000
  {
    TwoTo64();
    TwoTo60();
    hide Pow;
    PowAdd(2, 64, 64);
    PowAdd(2, 128, 64);
    PowAdd(2, 192, 60);
  }

  lemma OrderFits()
    ensures ScalarL.L < Pow(256, 32)
  {
    PowAdd(256, 16, 16);
    PowAdd(256, 8, 8);
    PowAdd(256, 4, 4);
    assert Pow(256, 4) == 0x1_0000_0000;
  }

  /**
   * What is compared, in any associative reading of a closed set of points that holds the base
   * point and the negated key: S times the one plus h times the other.
   */
  lemma VerificationEquation<G(!new)>(f: Compression, msg: seq<byte>, sig: seq<byte>, key: seq<byte>,
    on: Ext -> bool, rep: Ext -> G, op: (G, G) -> G, id: G)
    requires |sig| == 64 && |key| == 32 && on(Base()) && on(Unpacked(key))
    requires Reading(Adder(ED2, P), NEUTRAL, on, rep, op, id)
    ensures var s, h := Val(sig[32..], 256), HashNumber(f, sig[..32] + key + msg) % ScalarL.L;
      && (|msg| + 64 < 0x2000_0000_0000_0000 ==> h == FipsNumber(f, sig[..32] + key + msg) % ScalarL.L)
      && s >= 0 && on(Recomputed(f, msg, sig, key))
      && rep(Recomputed(f, msg, sig, key)) == op(Times(op, id, s, rep(Base())), Times(op, id, h, rep(Unpacked(key))))
  {
    ChallengeIs(f, msg, sig, key);
    hide Base, Unpacked, Challenge, Ladder, HashNumber, FipsNumber;
    var b, c := Multiple25519(Base(), sig[32..]), Multiple25519(Unpacked(key), Challenge(f, msg, sig, key));
    LadderMultiplies(Adder(ED2, P), NEUTRAL, on, rep, op, id, Base(), sig[32..]);
    LadderMultiplies(Adder(ED2, P), NEUTRAL, on, rep, op, id, Unpacked(key), Challenge(f, msg, sig, key));
    assert ReadsSum(Adder(ED2, P), on, rep, op, b, c);
  }

  lemma ProperPoints(key: seq<byte>)
    requires Domain(P) && NonSquare(ED, P)
    requires |key| == 32 && Root25519(FoundRoot(EncodedY(key)), EncodedY(key))
    ensures Proper(Base(), ED, P) && Proper(Unpacked(key), ED, P)
    ensures Completes(SQRTM1, ED, P) && Cong(ED2, 2 * ED, P)
  {
    BaseOnCurve();
    UnpackedOnCurve(key);
    DoubleD();
    RootOfMinusOne();
    OneIsNotZero(P);
    assert Base().Z == 1;
    hide Base, Unpacked, OnCurve, Root25519, FoundRoot, EncodedY, Domain, NonSquare;
  }

  /** So over a prime modulus, with d no square, for any associative reading of the curve's proper points. */
  lemma CurveEquation<G(!new)>(f: Compression, msg: seq<byte>, sig: seq<byte>, key: seq<byte>,
    rep: Ext -> G, op: (G, G) -> G, id: G)
    requires Domain(P) && NonSquare(ED, P)
    requires |sig| == 64 && |key| == 32 && Root25519(FoundRoot(EncodedY(key)), EncodedY(key))
    requires Monoid(op, id) && rep(NEUTRAL) == id
    requires forall p, q :: HomAt(Adder(ED2, P), On(ED, P), rep, op, p, q)
    ensures var s, h := Val(sig[32..], 256), HashNumber(f, sig[..32] + key + msg) % ScalarL.L;
      && s >= 0 && Proper(Recomputed(f, msg, sig, key), ED, P)
      && rep(Recomputed(f, msg, sig, key)) == op(Times(op, id, s, rep(Base())), Times(op, id, h, rep(Unpacked(key))))
  {
    hide Base, Unpacked, Challenge, Proper, Root25519, FoundRoot, EncodedY, Completes, Recomputed, Adder, Reading, Times, HomAt, HashNumber, FipsNumber;
    ProperPoints(key);
    CurveReading(SQRTM1, ED, ED2, P, rep, op, id);
    VerificationEquation(f, msg, sig, key, On(ED, P), rep, op, id);
  }

  lemma DoubleD()
    ensures Cong(ED2, 2 * ED, P)
  {
    CongMod(2 * ED, P);
    Constants();
  }

  lemma UnpackedOnCurve(key: seq<byte>)
    requires |key| == 32 && Root25519(FoundRoot(EncodedY(key)), EncodedY(key))
    ensures OnCurve(Unpacked(key), ED, P)
  {
    hide EncodedY, FoundRoot;
    var y := EncodedY(key);
    var r := FoundRoot(y);
    var x := if r % 2 == key[31] / 128 then FSub(0, r) else r;
    FoundRange(y);
    hide OnCurve, Root25519, IsRoot, Num, Den;
    assert IsRoot(r, Num(y, P), Den(y, ED, P), P) by { RootMeans(r, y); }
    EitherRootOnCurve(r, x, y, ED, P);
  }

  lemma RootMeans(x: int, y: int)
    ensures Root25519(x, y) <==> IsRoot(x, Num(y, P), Den(y, ED, P), P)
  {
  }
}
