/**
 * Leases end to end: how a document gives a lease, what bytes are signed for it, and when the signature is
 * taken (include/keylight/lease.hpp:30-69, verifier.hpp:57-106, config_payload.hpp:43-57).
 */
module Trust {
  import opened Collections
  import opened Limbs
  import opened Json
  import opened Leases
  import opened Payload
  import opened Verifier
  import opened Wire
  import Curve
  import Ed25519
  import Sha2
  import Signing

  // ---------------------------------------------------------------- the text that is signed

  /** `a` comes before `b` by its character at `k`, or ends there. */
  ghost predicate Before(a: string, b: string, k: nat) {
    && k <= |a| && k <= |b| && a[..k] == b[..k]
    && (k == |a| || (k < |b| && a[k] < b[k]))
  }

  /** The order of the entitlements is the order of words. */
  lemma {:induction false} LeqIsLexicographic(a: string, b: string)
    ensures Leq(a, b) <==> exists k :: Before(a, b, k)
  {
    if |a| == 0 {
      assert Before(a, b, 0);
    } else if |b| > 0 && a[0] == b[0] {
      LeqIsLexicographic(a[1..], b[1..]);
      if Leq(a[1..], b[1..]) {
        var k: nat :| Before(a[1..], b[1..], k);
        assert a[..k + 1] == [a[0]] + a[1..][..k] && b[..k + 1] == [b[0]] + b[1..][..k];
        assert Before(a, b, k + 1);
      }
      if k: nat :| Before(a, b, k) {
        assert k > 0;
        assert a[1..][..k - 1] == a[..k][1..] && b[1..][..k - 1] == b[..k][1..];
        assert Before(a[1..], b[1..], k - 1);
      }
    } else if |b| > 0 {
      if a[0] < b[0] {
        assert Before(a, b, 0);
      }
      if k: nat :| Before(a, b, k) {
        assert k > 0 ==> a[..k][0] == b[..k][0];
      }
    }
  }

  /** `e` lists the entitlements in the order of words. */
  ghost predicate Arranged(e: seq<string>, entitlements: seq<string>) {
    && multiset(e) == multiset(entitlements)
    && forall i, j :: 0 <= i < j < |e| ==> exists k :: Before(e[i], e[j], k)
  }

  lemma ArrangedIsSorted(e: seq<string>, entitlements: seq<string>)
    requires Arranged(e, entitlements)
    ensures e == Sorted(entitlements)
  {
    forall i, j | 0 <= i < j < |e|
      ensures Leq(e[i], e[j])
    {
      LeqIsLexicographic(e[i], e[j]);
    }
    SortedAscending(entitlements);
    AscendingUnique(e, Sorted(entitlements));
  }

  /** What is signed for a lease, written out. */
  lemma PayloadSpelled(l: Lease, e: seq<string>)
    requires Arranged(e, l.entitlements)
    ensures CanonicalPayload(l) == "v3|" + l.kid + "|" + l.licenseKeyHash + "|" + l.instanceId + "|"
      + ToString(l.issuedAt) + "|" + ToString(l.expiresAt) + "|" + l.status + "|" + Commas(e)
  {
    hide Arranged, ToString;
    ArrangedIsSorted(e, l.entitlements);
    JoinedCommas(e);
    hide Sorted, Joined, Commas;
    Barred(l.kid, l.licenseKeyHash, l.instanceId, ToString(l.issuedAt), ToString(l.expiresAt), l.status, Commas(e));
  }

  lemma Barred(a: string, b: string, c: string, d: string, e: string, f: string, g: string)
    ensures Bar("v3", Bar(a, Bar(b, Bar(c, Bar(d, Bar(e, Bar(f, g)))))))
      == "v3|" + a + "|" + b + "|" + c + "|" + d + "|" + e + "|" + f + "|" + g
  {
    OneBar("v3", a, Bar(b, Bar(c, Bar(d, Bar(e, Bar(f, g))))));
    assert "v3" + "|" + a == "v3|" + a;
    Bars("v3|" + a, b, c, d, e, f, g);
  }

  lemma Bars(s: string, b: string, c: string, d: string, e: string, f: string, g: string)
    ensures Bar(s, Bar(b, Bar(c, Bar(d, Bar(e, Bar(f, g)))))) == s + "|" + b + "|" + c + "|" + d + "|" + e + "|" + f + "|" + g
  {
    OneBar(s, b, Bar(c, Bar(d, Bar(e, Bar(f, g)))));
    OneBar(s + "|" + b, c, Bar(d, Bar(e, Bar(f, g))));
    OneBar(s + "|" + b + "|" + c, d, Bar(e, Bar(f, g)));
    OneBar(s + "|" + b + "|" + c + "|" + d, e, Bar(f, g));
    OneBar(s + "|" + b + "|" + c + "|" + d + "|" + e, f, g);
  }

  /** A bar moves from the rest to the front. */
  lemma OneBar(done: string, field: string, rest: string)
    ensures Bar(done, Bar(field, rest)) == Bar(done + "|" + field, rest)
  {
  }

  /** What is signed for a configuration, written out. */
  lemma ConfigSpelled(kid: string, tenant: string, product: string, issuedAt: i64, expiresAt: i64, trialDays: i64, free: bool)
    ensures ConfigPayload(kid, tenant, product, issuedAt, expiresAt, trialDays, free) ==
      "cfg1|" + kid + "|" + tenant + "|" + product + "|" + ToString(issuedAt) + "|" + ToString(expiresAt) + "|"
      + ToString(trialDays) + "|" + (if free then "true" else "false")
  {
    hide ToString;
    var f := if free then "true" else "false";
    OneBar("cfg1", kid, Bar(tenant, Bar(product, Bar(ToString(issuedAt), Bar(ToString(expiresAt), Bar(ToString(trialDays), f))))));
    assert "cfg1" + "|" + kid == "cfg1|" + kid;
    Bars("cfg1|" + kid, tenant, product, ToString(issuedAt), ToString(expiresAt), ToString(trialDays), f);
  }

  /** The digits of a number are the shortest that denote it, so there is one spelling. */
  lemma {:induction false} ShortestDecimal(t: string, n: nat)
    requires |t| > 0 && Digits(t) && Number(t) == n
    ensures |Decimal(n)| <= |t| && (|Decimal(n)| == |t| ==> t == Decimal(n))
    decreases |t|
  {
    var front, d := t[..|t| - 1], Digit(t[|t| - 1]);
    assert t == front + [DigitChar(d)];
    assert n / 10 == Number(front) && n % 10 == d;
    if |front| > 0 {
      ShortestDecimal(front, n / 10);
      if n < 10 {
        OneDigit(n);
      }
    } else {
      assert n < 10;
    }
  }

  lemma OneDigit(n: nat)
    requires n < 10
    ensures |Decimal(n)| == 1
  {
  }

  // ---------------------------------------------------------------- the signature of a lease

  /** The bytes of a text whose characters are bytes. */
  ghost predicate SameBytes(m: seq<byte>, t: string) {
    |m| == |t| && forall i :: 0 <= i < |t| ==> m[i] as int == t[i] as int
  }

  /** A lease is trusted under a key that encodes a point exactly if its signature verifies for the bytes that are signed. */
  lemma SignedExactly<G(!new)>(f: Sha2.Compression, key: string, l: Lease, e: seq<string>, m: seq<byte>, A: Curve.Ext,
    rep: Curve.Ext -> G, op: (G, G) -> G, id: G)
    requires Signing.PrimeFacts() && Signing.CurveGroup(rep, op, id)
    requires Arranged(e, l.entitlements) && SameBytes(m, "v3|" + l.kid + "|" + l.licenseKeyHash + "|" + l.instanceId + "|"
      + ToString(l.issuedAt) + "|" + ToString(l.expiresAt) + "|" + l.status + "|" + Commas(e))
    requires Signing.Compressed(Flexible(key), A)
    ensures Signed(f, key, l) <==> (var sig := Flexible(l.signature);
      |sig| == 64 && Val(sig[32..], 256) < 32 * Pow(256, 31)
      && exists R :: Signing.Verifies(f, m, sig, Flexible(key), A, R, rep, op, id))
  {
    PayloadSpelled(l, e);
    var sig := Flexible(l.signature);
    OctetsAre(m, CanonicalPayload(l));
    hide CanonicalPayload, Octets, Flexible, Arranged, SameBytes, Ed25519.Accepts;
    if |sig| == 64 {
      hide *;
      Signing.AcceptsExactly(f, m, sig, Flexible(key), A, rep, op, id);
    }
  }

  lemma OctetsAre(m: seq<byte>, t: string)
    requires SameBytes(m, t)
    ensures Octets(t) == m
  {
    forall i | 0 <= i < |t|
      ensures Octets(t)[i] == m[i]
    {
      assert t[i] as int < 0x100;
    }
  }
}
