/**
 * The payloads that are signed (include/keylight/lease.hpp:52-66 and config_payload.hpp:43-57):
 * fields separated by bars, and why they determine what was signed.
 */
module Payload {
  import opened Collections
  import opened Limbs
  import opened Json
  import opened Leases

  // ---------------------------------------------------------------- lexicographic order

  predicate Leq(a: string, b: string) {
    |a| == 0 || (|b| > 0 && (a[0] < b[0] || (a[0] == b[0] && Leq(a[1..], b[1..]))))
  }

  lemma {:induction false} LeqTotal(a: string, b: string)
    ensures Leq(a, b) || Leq(b, a)
  {
    if |a| > 0 && |b| > 0 && a[0] == b[0] {
      LeqTotal(a[1..], b[1..]);
    }
  }

  lemma {:induction false} LeqTrans(a: string, b: string, c: string)
    requires Leq(a, b) && Leq(b, c)
    ensures Leq(a, c)
  {
    if |a| > 0 && a[0] == b[0] && b[0] == c[0] {
      LeqTrans(a[1..], b[1..], c[1..]);
    }
  }

  lemma {:induction false} LeqAntisym(a: string, b: string)
    requires Leq(a, b) && Leq(b, a)
    ensures a == b
  {
    if |a| > 0 {
      LeqAntisym(a[1..], b[1..]);
      assert a == [a[0]] + a[1..] && b == [b[0]] + b[1..];
    }
  }

  ghost predicate Ascending(s: seq<string>) {
    forall i, j :: 0 <= i < j < |s| ==> Leq(s[i], s[j])
  }

  function Insert(x: string, s: seq<string>): (r: seq<string>)
    ensures multiset(r) == multiset(s) + multiset{x}
  {
    if |s| == 0 || Leq(x, s[0]) then [x] + s
    else
      assert s == [s[0]] + s[1..];
      [s[0]] + Insert(x, s[1..])
  }

  lemma {:induction false} InsertAscending(x: string, s: seq<string>)
    requires Ascending(s)
    ensures Ascending(Insert(x, s))
  {
    var r := Insert(x, s);
    if |s| == 0 {
    } else if Leq(x, s[0]) {
      forall j | 0 < j < |r|
        ensures Leq(r[0], r[j])
      {
        if j > 1 {
          LeqTrans(x, s[0], s[j - 1]);
        }
      }
    } else {
      LeqTotal(x, s[0]);
      assert Ascending(s[1..]);
      InsertAscending(x, s[1..]);
      forall j | 0 < j < |r|
        ensures Leq(r[0], r[j])
      {
        assert r[j] in multiset(Insert(x, s[1..]));
        assert r[j] in s[1..] || r[j] == x;
      }
    }
  }

  /** `std::sort` on a copy. */
  function Sorted(s: seq<string>): (r: seq<string>)
    ensures multiset(r) == multiset(s) && |r| == |s|
  {
    if |s| == 0 then []
    else
      assert s == [s[0]] + s[1..];
      var r := Insert(s[0], Sorted(s[1..]));
      assert multiset(r) == multiset(s);
      assert |multiset(r)| == |multiset(s)|;
      r
  }

  lemma {:induction false} SortedAscending(s: seq<string>)
    ensures Ascending(Sorted(s))
  {
    if |s| > 0 {
      SortedAscending(s[1..]);
      InsertAscending(s[0], Sorted(s[1..]));
    }
  }

  /** The ascending arrangement of a multiset is unique. */
  lemma {:induction false} AscendingUnique(a: seq<string>, b: seq<string>)
    requires Ascending(a) && Ascending(b) && multiset(a) == multiset(b)
    ensures a == b
    decreases |a|
  {
    hide Ascending;
    assert |a| == |multiset(a)| == |b|;
    if |a| > 0 {
      SameHead(a, b);
      Behead(a);
      Behead(b);
      AscendingUnique(a[1..], b[1..]);
    }
  }

  lemma Behead(a: seq<string>)
    requires |a| > 0 && Ascending(a)
    ensures a == [a[0]] + a[1..] && Ascending(a[1..])
    ensures multiset(a[1..]) == multiset(a) - multiset{a[0]}
  {
    assert a == [a[0]] + a[1..];
  }

  lemma SameHead(a: seq<string>, b: seq<string>)
    requires Ascending(a) && Ascending(b) && multiset(a) == multiset(b) && |a| > 0 && |b| > 0
    ensures a[0] == b[0]
  {
    assert a[0] in multiset(b) && b[0] in multiset(a);
    var i :| 0 <= i < |b| && b[i] == a[0];
    var j :| 0 <= j < |a| && a[j] == b[0];
    HeadLeast(b, i);
    HeadLeast(a, j);
    LeqAntisym(a[0], b[0]);
  }

  lemma {:induction false} LeqSelf(a: string)
    ensures Leq(a, a)
  {
    if |a| > 0 {
      LeqSelf(a[1..]);
    }
  }

  lemma HeadLeast(s: seq<string>, i: nat)
    requires i < |s| && Ascending(s)
    ensures Leq(s[0], s[i])
  {
    LeqSelf(s[0]);
  }

  // ---------------------------------------------------------------- the payload

  /** A field and the bar after it. */
  function Bar(field: string, rest: string): (t: string) {
    field + "|" + rest
  }

  /** `canonical_payload`. */
  function CanonicalPayload(l: Lease): (t: string) {
    Bar("v3", Bar(l.kid, Bar(l.licenseKeyHash, Bar(l.instanceId,
      Bar(ToString(l.issuedAt), Bar(ToString(l.expiresAt), Bar(l.status, Joined(Sorted(l.entitlements)))))))))
  }

  /** The loop that appends the sorted entitlements. */
  method EntitlementsCsv(entitlements: seq<string>) returns (csv: string)
    ensures csv == Joined(Sorted(entitlements))
  {
    var ents := Sorted(entitlements);
    csv := "";
    for i := 0 to |ents|
      invariant csv == Joined(ents[..i])
    {
      JoinedAppend(ents[..i], ents[i]);
      assert ents[..i + 1] == ents[..i] + [ents[i]];
      if i > 0 {
        csv := csv + ",";
      }
      csv := csv + ents[i];
    }
    assert ents[..|ents|] == ents;
  }

  /** The order in which a lease lists its entitlements does not show. */
  lemma PayloadIgnoresOrder(l: Lease, e: seq<string>)
    requires multiset(e) == multiset(l.entitlements)
    ensures CanonicalPayload(l.(entitlements := e)) == CanonicalPayload(l)
  {
    SortedAscending(e);
    SortedAscending(l.entitlements);
    AscendingUnique(Sorted(e), Sorted(l.entitlements));
  }

  // ---------------------------------------------------------------- what the payload determines

  predicate Free(s: string, c: char) {
    c !in s
  }

  /** A field without the separator ends at the first separator. */
  lemma {:induction false} SplitAt(a: string, x: string, b: string, y: string, c: char)
    requires Free(a, c) && Free(b, c) && a + [c] + x == b + [c] + y
    ensures a == b && x == y
    decreases |a|
  {
    var s := a + [c] + x;
    assert forall k :: 0 <= k < |b| ==> s[k] == b[k] && s[k] != c;
    assert forall k :: 0 <= k < |a| ==> s[k] == a[k] && s[k] != c;
    assert s[|a|] == c && s[|b|] == c;
    if |a| == 0 {
      assert |b| == 0;
      assert s[1..] == x && s[1..] == y;
    } else {
      assert s[0] == a[0] && a[0] in a;
      assert |b| > 0;
      assert s[1..] == a[1..] + [c] + x && s[1..] == b[1..] + [c] + y;
      SplitAt(a[1..], x, b[1..], y, c);
      assert a == [a[0]] + a[1..] && b == [b[0]] + b[1..];
    }
  }

  lemma BarSplits(a: string, x: string, b: string, y: string)
    requires Free(a, '|') && Free(b, '|') && Bar(a, x) == Bar(b, y)
    ensures a == b && x == y
  {
    SplitAt(a, x, b, y, '|');
  }

  lemma DecimalFree(n: nat)
    ensures Free(Decimal(n), '|') && Free(Decimal(n), '-')
  {
  }

  lemma ToStringFree(i: i64)
    ensures Free(ToString(i), '|')
  {
    DecimalFree(if i < 0 then -(i as int) else i);
  }

  lemma ToStringInjective(i: i64, j: i64)
    requires ToString(i) == ToString(j)
    ensures i == j
  {
    var m: nat := if i < 0 then -(i as int) else i;
    var n: nat := if j < 0 then -(j as int) else j;
    DecimalFree(m);
    DecimalFree(n);
    DecimalNumber(m);
    DecimalNumber(n);
    assert i >= 0 ==> ToString(i)[0] in Decimal(m);
    assert j >= 0 ==> ToString(j)[0] in Decimal(n);
    assert i < 0 ==> ToString(i)[1..] == Decimal(m);
    assert j < 0 ==> ToString(j)[1..] == Decimal(n);
  }

  ghost predicate NoCommas(e: seq<string>) {
    forall k :: 0 <= k < |e| ==> Free(e[k], ',')
  }

  /** Comma-free parts are determined by the joined text, but for nothing and one empty part. */
  lemma {:induction false} JoinedDetermines(a: seq<string>, b: seq<string>)
    requires NoCommas(a) && NoCommas(b)
    ensures Joined(a) == Joined(b) <==> a == b || (a == [] && b == [""]) || (a == [""] && b == [])
    decreases |a| + |b|
  {
    if |a| > 1 {
      JoinedFront(a);
    }
    if |b| > 1 {
      JoinedFront(b);
    }
    if |a| > 1 && |b| > 1 {
      JoinedDetermines(a[1..], b[1..]);
      if Joined(a) == Joined(b) {
        SplitAt(a[0], Joined(a[1..]), b[0], Joined(b[1..]), ',');
        assert a == [a[0]] + a[1..] && b == [b[0]] + b[1..];
      }
    } else if |a| > 1 {
      CommaInside(a[0], Joined(a[1..]), Joined(b));
    } else if |b| > 1 {
      CommaInside(b[0], Joined(b[1..]), Joined(a));
    }
  }

  lemma CommaInside(x: string, y: string, t: string)
    requires Free(t, ',')
    ensures x + "," + y != t
  {
    assert (x + "," + y)[|x|] == ',';
  }

  /** Sorting loses nothing but the order. */
  lemma SortedSame(a: seq<string>, b: seq<string>)
    ensures Sorted(a) == Sorted(b) <==> multiset(a) == multiset(b)
  {
    if multiset(a) == multiset(b) {
      SortedAscending(a);
      SortedAscending(b);
      AscendingUnique(Sorted(a), Sorted(b));
    }
  }

  lemma SortedNoCommas(e: seq<string>)
    requires NoCommas(e)
    ensures NoCommas(Sorted(e))
  {
    forall k | 0 <= k < |Sorted(e)|
      ensures Free(Sorted(e)[k], ',')
    {
      assert Sorted(e)[k] in multiset(e);
    }
  }

  lemma SortedSmall(e: seq<string>)
    ensures Sorted(e) == [] <==> e == []
    ensures Sorted(e) == [""] <==> e == [""]
  {
    if Sorted(e) == [""] {
      assert e[0] in multiset(Sorted(e));
    }
  }

  ghost predicate BarFree(l: Lease) {
    Free(l.kid, '|') && Free(l.licenseKeyHash, '|') && Free(l.instanceId, '|') && Free(l.status, '|')
  }

  ghost predicate SameFields(l: Lease, k: Lease) {
    && l.kid == k.kid && l.licenseKeyHash == k.licenseKeyHash && l.instanceId == k.instanceId
    && l.issuedAt == k.issuedAt && l.expiresAt == k.expiresAt && l.status == k.status
  }

  lemma PayloadFields(l: Lease, k: Lease)
    requires BarFree(l) && BarFree(k) && CanonicalPayload(l) == CanonicalPayload(k)
    ensures SameFields(l, k) && Joined(Sorted(l.entitlements)) == Joined(Sorted(k.entitlements))
  {
    hide Bar, ToString, Sorted, Joined;
    var l6, k6 := Bar(l.status, Joined(Sorted(l.entitlements))), Bar(k.status, Joined(Sorted(k.entitlements)));
    var l5, k5 := Bar(ToString(l.expiresAt), l6), Bar(ToString(k.expiresAt), k6);
    var l4, k4 := Bar(ToString(l.issuedAt), l5), Bar(ToString(k.issuedAt), k5);
    var l3, k3 := Bar(l.instanceId, l4), Bar(k.instanceId, k4);
    var l2, k2 := Bar(l.licenseKeyHash, l3), Bar(k.licenseKeyHash, k3);
    BarSplits("v3", Bar(l.kid, l2), "v3", Bar(k.kid, k2));
    BarSplits(l.kid, l2, k.kid, k2);
    BarSplits(l.licenseKeyHash, l3, k.licenseKeyHash, k3);
    BarSplits(l.instanceId, l4, k.instanceId, k4);
    ToStringFree(l.issuedAt);
    ToStringFree(k.issuedAt);
    BarSplits(ToString(l.issuedAt), l5, ToString(k.issuedAt), k5);
    ToStringFree(l.expiresAt);
    ToStringFree(k.expiresAt);
    BarSplits(ToString(l.expiresAt), l6, ToString(k.expiresAt), k6);
    BarSplits(l.status, Joined(Sorted(l.entitlements)), k.status, Joined(Sorted(k.entitlements)));
    ToStringInjective(l.issuedAt, k.issuedAt);
    ToStringInjective(l.expiresAt, k.expiresAt);
  }

  /** No entitlements and one empty entitlement look alike. */
  ghost predicate Blank(a: seq<string>, b: seq<string>) {
    (a == [] && b == [""]) || (a == [""] && b == [])
  }

  /** What two leases with the same payload have in common, and nothing less makes them the same. */
  lemma PayloadDetermines(l: Lease, k: Lease)
    requires BarFree(l) && BarFree(k) && NoCommas(l.entitlements) && NoCommas(k.entitlements)
    ensures CanonicalPayload(l) == CanonicalPayload(k) <==>
      SameFields(l, k) && (multiset(l.entitlements) == multiset(k.entitlements) || Blank(l.entitlements, k.entitlements))
  {
    hide Bar, Joined, Sorted, Free;
    var a, b := l.entitlements, k.entitlements;
    SortedNoCommas(a);
    SortedNoCommas(b);
    JoinedDetermines(Sorted(a), Sorted(b));
    SortedSame(a, b);
    SortedSmall(a);
    SortedSmall(b);
    if CanonicalPayload(l) == CanonicalPayload(k) {
      PayloadFields(l, k);
    }
  }

  // ---------------------------------------------------------------- the signed configuration

  /** `config_canonical_payload`. */
  function ConfigPayload(kid: string, tenant: string, product: string, issuedAt: i64, expiresAt: i64,
    trialDays: i64, freeTier: bool): (t: string)
  {
    Bar("cfg1", Bar(kid, Bar(tenant, Bar(product, Bar(ToString(issuedAt), Bar(ToString(expiresAt),
      Bar(ToString(trialDays), if freeTier then "true" else "false")))))))
  }

  /** A configuration signed for one product cannot pass for another's. */
  lemma ConfigDetermines(kid: string, tenant: string, product: string, issued: i64, expires: i64, days: i64, free: bool,
    kid': string, tenant': string, product': string, issued': i64, expires': i64, days': i64, free': bool)
    requires Free(kid, '|') && Free(kid', '|') && Free(tenant, '|') && Free(tenant', '|') && Free(product, '|') && Free(product', '|')
    requires ConfigPayload(kid, tenant, product, issued, expires, days, free)
      == ConfigPayload(kid', tenant', product', issued', expires', days', free')
    ensures kid == kid' && tenant == tenant' && product == product' && issued == issued' && expires == expires'
      && days == days' && free == free'
  {
    hide Bar, ToString;
    var f, f' := if free then "true" else "false", if free' then "true" else "false";
    var a5, b5 := Bar(ToString(days), f), Bar(ToString(days'), f');
    var a4, b4 := Bar(ToString(expires), a5), Bar(ToString(expires'), b5);
    var a3, b3 := Bar(ToString(issued), a4), Bar(ToString(issued'), b4);
    var a2, b2 := Bar(product, a3), Bar(product', b3);
    var a1, b1 := Bar(tenant, a2), Bar(tenant', b2);
    BarSplits("cfg1", Bar(kid, a1), "cfg1", Bar(kid', b1));
    BarSplits(kid, a1, kid', b1);
    BarSplits(tenant, a2, tenant', b2);
    BarSplits(product, a3, product', b3);
    ToStringFree(issued);
    ToStringFree(issued');
    BarSplits(ToString(issued), a4, ToString(issued'), b4);
    ToStringFree(expires);
    ToStringFree(expires');
    BarSplits(ToString(expires), a5, ToString(expires'), b5);
    ToStringFree(days);
    ToStringFree(days');
    BarSplits(ToString(days), f, ToString(days'), f');
    ToStringInjective(issued, issued');
    ToStringInjective(expires, expires');
    ToStringInjective(days, days');
    assert "true"[0] != "false"[0];
  }
}
