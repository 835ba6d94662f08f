/** Trust in a lease (include/keylight/verifier.hpp:43-106): key lookup, decoding, payload, signature. */
module Verifier {
  import opened Collections
  import opened Limbs
  import opened Json
  import opened Leases
  import opened Payload
  import Base64
  import Ed25519
  import Sha2

  datatype VerifyResult = VerifyResult(expired: bool, kidKnown: bool, signatureValid: bool)

  /** What `b64_decode_flexible` makes of a text. */
  function Flexible(t: string): (s: seq<byte>) {
    Base64.Decoded(Base64.Normal(t) + Base64.Pads((4 - |Base64.Normal(t)| % 4) % 4), 0, 0)
  }

  /** The bytes of a text whose characters stand for bytes. */
  function Octets(t: string): (s: seq<byte>) {
    seq(|t|, i requires 0 <= i < |t| => t[i] as int % 0x100)
  }

  /** The signature holds for the lease's payload under the key. */
  ghost predicate Signed(f: Sha2.Compression, key: string, l: Lease) {
    var pk, sig := Flexible(key), Flexible(l.signature);
    |pk| == 32 && |sig| == 64 && Ed25519.Accepts(f, Octets(CanonicalPayload(l)), sig, pk)
  }

  /** `Verifier::verify`: expiry is judged whether or not the key is known. */
  method Verify(f: Sha2.Compression, keys: map<string, string>, skew: int, l: Lease, now: i64) returns (r: VerifyResult)
    ensures r.expired <==> now > l.expiresAt + skew
    ensures r.kidKnown <==> l.kid in keys
    ensures r.signatureValid <==> l.kid in keys && Signed(f, keys[l.kid], l)
  {
    hide Ed25519.Accepts, CanonicalPayload;
    var expired, known := now > l.expiresAt + skew, l.kid in keys;
    if !known {
      return VerifyResult(expired, false, false);
    }
    var pk := Base64.DecodeFlexible(keys[l.kid]);
    if |pk| != 32 {
      return VerifyResult(expired, true, false);
    }
    var sig := Base64.DecodeFlexible(l.signature);
    if |sig| != 64 {
      return VerifyResult(expired, true, false);
    }
    var valid := Ed25519.Verify(f, Octets(CanonicalPayload(l)), sig, pk);
    r := VerifyResult(expired, true, valid);
  }

  /** Trust does not depend on the order of the entitlements or on how key and signature are spelled. */
  lemma TrustIgnoresSpelling(f: Sha2.Compression, key: string, key': string, l: Lease, l': Lease, pk: seq<byte>, sig: seq<byte>,
    i: nat, j: nat, m: nat, n: nat)
    requires Base64.Normal(key) + Base64.Pads(i) == Base64.Encoded(pk) == Base64.Normal(key') + Base64.Pads(j)
    requires Base64.Normal(l.signature) + Base64.Pads(m) == Base64.Encoded(sig) == Base64.Normal(l'.signature) + Base64.Pads(n)
    requires l' == l.(entitlements := l'.entitlements, signature := l'.signature)
    requires multiset(l'.entitlements) == multiset(l.entitlements)
    ensures Signed(f, key, l) <==> Signed(f, key', l')
  {
    hide Ed25519.Accepts, CanonicalPayload, Flexible, Octets;
    FlexibleIs(pk, key, i);
    FlexibleIs(pk, key', j);
    FlexibleIs(sig, l.signature, m);
    FlexibleIs(sig, l'.signature, n);
    PayloadIgnoresOrder(l, l'.entitlements);
    SignatureNotSigned(l.(entitlements := l'.entitlements), l'.signature);
  }

  lemma FlexibleIs(s: seq<byte>, t: string, k: nat)
    requires Base64.Normal(t) + Base64.Pads(k) == Base64.Encoded(s)
    ensures Flexible(t) == s
  {
    Base64.FlexibleRoundTrip(s, t, k);
  }

  lemma SignatureNotSigned(l: Lease, s: string)
    ensures CanonicalPayload(l.(signature := s)) == CanonicalPayload(l)
  {
  }
}
