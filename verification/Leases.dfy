/** The signed lease: its JSON form and the payload that was signed (include/keylight/lease.hpp). */
module Leases {
  import opened Collections
  import opened Limbs
  import opened Json

  datatype Lease = Lease(
    kid: string, licenseKeyHash: string, instanceId: string,
    issuedAt: i64, expiresAt: i64, status: string, signature: string, entitlements: seq<string>)

  // ---------------------------------------------------------------- JSON

  function Strings(s: seq<string>): (e: seq<Value>)
    ensures |e| == |s|
  {
    if |s| == 0 then [] else [String(s[0])] + Strings(s[1..])
  }

  function LeaseMembers(l: Lease): (m: seq<Member>) {
    [Member("kid", String(l.kid)), Member("licenseKeyHash", String(l.licenseKeyHash)),
     Member("instanceId", String(l.instanceId)), Member("issuedAt", Int(l.issuedAt)),
     Member("expiresAt", Int(l.expiresAt)), Member("status", String(l.status)),
     Member("entitlements", Array(Strings(l.entitlements))), Member("signature", String(l.signature))]
  }

  function LeaseTree(l: Lease): (v: Value) {
    Object(LeaseMembers(l))
  }

  /** The texts of an array's elements; anything but a string counts as empty. */
  function Texts(e: seq<Value>): (s: seq<string>)
    ensures |s| == |e|
  {
    if |e| == 0 then [] else [AsString(e[0])] + Texts(e[1..])
  }

  function Blanks(n: nat): (s: seq<string>) {
    seq(n, _ => "")
  }

  /** The entitlements of `from_json`; an object in that place counts its members. */
  function Entitlements(v: Value): (s: seq<string>) {
    match v
    case Array(e) => Texts(e)
    case Object(m) => Blanks(|m|)
    case _ => []
  }

  function LeaseFrom(v: Value): (l: Lease) {
    Lease(AsString(Get(v, "kid")), AsString(Get(v, "licenseKeyHash")), AsString(Get(v, "instanceId")),
          AsInt(Get(v, "issuedAt")), AsInt(Get(v, "expiresAt")), AsString(Get(v, "status")),
          AsString(Get(v, "signature")), Entitlements(Get(v, "entitlements")))
  }

  /** `Lease::from_json`: a lease needs a key id and a status. */
  function FromTree(v: Value): (r: Option<Lease>) {
    var l := LeaseFrom(v);
    if l.kid == "" || l.status == "" then None else Some(l)
  }

  lemma {:induction false} StringsBack(s: seq<string>)
    ensures Texts(BackElems(Strings(s))) == s && AllWritable(Strings(s))
  {
    if |s| > 0 {
      StringsBack(s[1..]);
      assert Strings(s)[1..] == Strings(s[1..]);
      assert BackElems(Strings(s))[1..] == BackElems(Strings(s[1..]));
    }
  }

  /** The lookup of a name whose position is known. */
  lemma GetAt(m: seq<Member>, i: nat)
    requires i < |m| && Distinct(m)
    ensures Get(Object(m), m[i].name) == m[i].value && Has(Object(m), m[i].name)
    ensures Get(Object(BackMembers(m)), m[i].name) == Back(m[i].value) && Has(Object(BackMembers(m)), m[i].name)
  {
    var k := Find(m, m[i].name);
    assert k == i;
    var b := BackMembers(m);
    BackAt(m, i);
    var j := Find(b, m[i].name);
    assert j <= i && b[j].name == m[j].name;
    assert j == i;
  }

  lemma {:induction false} BackAt(m: seq<Member>, i: nat)
    requires i < |m|
    ensures BackMembers(m)[i].value == Back(m[i].value)
  {
    if i > 0 {
      BackAt(m[1..], i - 1);
    }
  }

  /** Two names of different length or first letter differ. */
  lemma LeaseNamesDiffer(l: Lease)
    ensures Distinct(LeaseMembers(l))
  {
    var m := LeaseMembers(l);
    assert |m[0].name| == 3 && |m[1].name| == 14 && |m[2].name| == 10 && |m[3].name| == 8;
    assert |m[4].name| == 9 && |m[5].name| == 6 && |m[6].name| == 12 && |m[7].name| == 9;
    assert m[4].name[0] == 'e' && m[7].name[0] == 's';
  }

  lemma LeaseWritable(l: Lease)
    ensures Writable(LeaseTree(l)) && Size(LeaseTree(l)) == 8
  {
    LeaseNamesDiffer(l);
    StringsBack(l.entitlements);
    var m := LeaseMembers(l);
    EachWritable(m);
  }

  lemma {:induction false} EachWritable(m: seq<Member>)
    requires forall k :: 0 <= k < |m| ==> Writable(m[k].value)
    ensures MembersWritable(m)
  {
    if |m| > 0 {
      EachWritable(m[1..]);
    }
  }

  /** Field `i` of a lease that was written and read back. */
  lemma LeaseField(l: Lease, i: nat)
    requires i < |LeaseMembers(l)|
    ensures var m := LeaseMembers(l); Get(Back(LeaseTree(l)), m[i].name) == Back(m[i].value)
  {
    LeaseNamesDiffer(l);
    hide LeaseMembers;
    GetAt(LeaseMembers(l), i);
  }

  /** A lease survives being written and read back, provided it has the two required fields. */
  lemma LeaseRoundTrip(l: Lease)
    ensures LeaseFrom(Back(LeaseTree(l))) == l
    ensures FromTree(Back(LeaseTree(l))) == Some(l) <==> l.kid != "" && l.status != ""
  {
    hide Get, LeaseTree, BackElems, Strings;
    LeaseField(l, 0);
    LeaseField(l, 1);
    LeaseField(l, 2);
    LeaseField(l, 3);
    LeaseField(l, 4);
    LeaseField(l, 5);
    LeaseField(l, 6);
    LeaseField(l, 7);
    StringsBack(l.entitlements);
    IntReads(l.issuedAt, "");
    IntReads(l.expiresAt, "");
  }

  /** `Lease::from_json`. */
  method FromJson(j: Value) returns (r: Option<Lease>)
    ensures r == FromTree(j)
  {
    var ents := Get(j, "entitlements");
    var list: seq<string> := [];
    var n := Size(ents);
    for i := 0 to n
      invariant |list| == i && list == Entitlements(ents)[..i]
    {
      EntitlementAt(ents, i);
      list := list + [if ents.Array? then AsString(ents.elems[i]) else ""];
    }
    var l := Lease(AsString(Get(j, "kid")), AsString(Get(j, "licenseKeyHash")), AsString(Get(j, "instanceId")),
      AsInt(Get(j, "issuedAt")), AsInt(Get(j, "expiresAt")), AsString(Get(j, "status")),
      AsString(Get(j, "signature")), list);
    assert list == Entitlements(ents);
    r := if l.kid == "" || l.status == "" then None else Some(l);
  }

  lemma {:induction false} TextAt(e: seq<Value>, i: nat)
    requires i < |e|
    ensures Texts(e)[i] == AsString(e[i])
  {
    if i > 0 {
      TextAt(e[1..], i - 1);
    }
  }

  lemma EntitlementAt(v: Value, i: nat)
    requires i < Size(v)
    ensures |Entitlements(v)| == Size(v)
    ensures Entitlements(v)[..i + 1] == Entitlements(v)[..i] + [if v.Array? then AsString(v.elems[i]) else ""]
  {
    if v.Array? {
      TextAt(v.elems, i);
    }
  }

  // ---------------------------------------------------------------- writing

  /** Names with nothing to escape are written as they are. */
  lemma {:induction false} PlainQuote(s: string)
    requires forall k :: 0 <= k < |s| ==> 'A' <= s[k] <= 'Z' || 'a' <= s[k] <= 'z'
    ensures Quote(s) == "\"" + s + "\"" && Escape(s) == s
  {
    if |s| > 0 {
      PlainQuote(s[1..]);
      assert s == [s[0]] + s[1..];
    }
  }

  lemma {:induction false} QuotedParts(s: seq<string>)
    requires AllWritable(Strings(s))
    ensures ElemParts(Strings(s)) == Quotes(s)
  {
    if |s| > 0 {
      QuotedParts(s[1..]);
      assert Strings(s)[1..] == Strings(s[1..]);
    }
  }

  function Quotes(s: seq<string>): (q: seq<string>)
    ensures |q| == |s|
  {
    if |s| == 0 then [] else [Quote(s[0])] + Quotes(s[1..])
  }

  lemma {:induction false} QuotesAppend(s: seq<string>, x: string)
    ensures Quotes(s + [x]) == Quotes(s) + [Quote(x)]
  {
    if |s| > 0 {
      assert (s + [x])[1..] == s[1..] + [x];
      QuotesAppend(s[1..], x);
    }
  }

  /** The entitlement list of `lease_to_json_`. */
  method EntitlementsToJson(s: seq<string>) returns (out: string)
    ensures AllWritable(Strings(s)) && out == Text(Array(Strings(s)))
  {
    out := "[";
    for i := 0 to |s|
      invariant out == "[" + Joined(Quotes(s[..i]))
    {
      assert s[..i + 1] == s[..i] + [s[i]];
      QuotesAppend(s[..i], s[i]);
      JoinedAppend(Quotes(s[..i]), Quote(s[i]));
      if i > 0 {
        out := out + ",";
      }
      out := out + Quote(s[i]);
    }
    assert s[..|s|] == s;
    StringsBack(s);
    QuotedParts(s);
    ElemsTextJoined(Strings(s));
    out := out + "]";
  }

  /** A member name the way the writers spell it out. */
  function Name(name: string): (t: string) {
    "\"" + name + "\":"
  }

  predicate Letters(s: string) {
    forall k :: 0 <= k < |s| ==> 'A' <= s[k] <= 'Z' || 'a' <= s[k] <= 'z'
  }

  lemma PlainPart(m: Member)
    requires Writable(m.value) && Letters(m.name)
    ensures MemberPart(m) == Name(m.name) + Text(m.value)
  {
    PlainQuote(m.name);
    assert "\"" + m.name + "\"" + ":" == Name(m.name);
  }

  lemma {:induction false} PlainParts(m: seq<Member>, i: nat)
    requires MembersWritable(m) && i < |m| && Letters(m[i].name)
    ensures Writable(m[i].value) && MemberParts(m)[i] == Name(m[i].name) + Text(m[i].value)
  {
    if i > 0 {
      PlainParts(m[1..], i - 1);
    } else {
      PlainPart(m[0]);
    }
  }

  lemma Join8(p: seq<string>)
    requires |p| == 8
    ensures Joined(p) == p[0] + "," + p[1] + "," + p[2] + "," + p[3] + "," + p[4] + "," + p[5] + "," + p[6] + "," + p[7]
  {
    assert p[..8] == p;
    forall i | 0 < i < 8
      ensures Joined(p[..i + 1]) == Joined(p[..i]) + "," + p[i]
    {
      JoinedAppend(p[..i], p[i]);
      assert p[..i + 1] == p[..i] + [p[i]];
    }
    assert Joined(p[..1]) == p[0];
    hide Joined;
    assert Joined(p[..1 + 1]) == p[0] + "," + p[1];
    assert Joined(p[..2 + 1]) == p[0] + "," + p[1] + "," + p[2];
    assert Joined(p[..3 + 1]) == p[0] + "," + p[1] + "," + p[2] + "," + p[3];
    assert Joined(p[..4 + 1]) == p[0] + "," + p[1] + "," + p[2] + "," + p[3] + "," + p[4];
    assert Joined(p[..5 + 1]) == p[0] + "," + p[1] + "," + p[2] + "," + p[3] + "," + p[4] + "," + p[5];
    assert Joined(p[..6 + 1]) == p[0] + "," + p[1] + "," + p[2] + "," + p[3] + "," + p[4] + "," + p[5] + "," + p[6];
    assert Joined(p[..7 + 1]) == Joined(p[..7]) + "," + p[7];
  }

  lemma LeaseLetters(l: Lease)
    ensures forall i :: 0 <= i < 8 ==> Letters(LeaseMembers(l)[i].name)
  {
  }

  lemma LeaseParts(l: Lease)
    requires MembersWritable(LeaseMembers(l)) && AllWritable(Strings(l.entitlements))
    ensures MemberParts(LeaseMembers(l)) ==
      [Name("kid") + Quote(l.kid), Name("licenseKeyHash") + Quote(l.licenseKeyHash),
       Name("instanceId") + Quote(l.instanceId), Name("issuedAt") + ToString(l.issuedAt),
       Name("expiresAt") + ToString(l.expiresAt), Name("status") + Quote(l.status),
       Name("entitlements") + Text(Array(Strings(l.entitlements))), Name("signature") + Quote(l.signature)]
  {
    hide MemberParts, Name, Quote, ToString, ElemsText, Strings, Letters;
    var m := LeaseMembers(l);
    LeaseLetters(l);
    PlainParts(m, 0);
    PlainParts(m, 1);
    PlainParts(m, 2);
    PlainParts(m, 3);
    PlainParts(m, 4);
    PlainParts(m, 5);
    PlainParts(m, 6);
    PlainParts(m, 7);
  }

  /** `lease_to_json_`: the text of the lease's tree. */
  method LeaseToJson(l: Lease) returns (out: string)
    ensures Writable(LeaseTree(l)) && out == Text(LeaseTree(l))
  {
    var ents := EntitlementsToJson(l.entitlements);
    LeaseWritable(l);
    MembersTextJoined(LeaseMembers(l));
    assert Text(LeaseTree(l)) == "{" + MembersText(LeaseMembers(l)) + "}";
    LeaseParts(l);
    hide LeaseMembers, MemberParts, MembersText, Name, Quote, ToString, Text, Joined;
    Join8(MemberParts(LeaseMembers(l)));
    out := Name("kid") + Quote(l.kid) + "," +
      (Name("licenseKeyHash") + Quote(l.licenseKeyHash)) + "," +
      (Name("instanceId") + Quote(l.instanceId)) + "," +
      (Name("issuedAt") + ToString(l.issuedAt)) + "," +
      (Name("expiresAt") + ToString(l.expiresAt)) + "," +
      (Name("status") + Quote(l.status)) + "," +
      (Name("entitlements") + ents) + "," +
      (Name("signature") + Quote(l.signature));
    out := "{" + out + "}";
  }
}
