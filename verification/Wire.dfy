/**
 * The texts the client writes, spelled out (include/keylight/client.hpp:1823-1846, 1970-2021), and the lease a document
 * gives whatever the order of its members (include/keylight/lease.hpp:30-50).
 */
module Wire {
  import opened Blob
  import opened Collections
  import opened Json
  import opened Leases
  import opened Limbs
  import opened Spellings

  /** Words with commas between them. */
  function Commas(e: seq<string>): (t: string) {
    if |e| == 0 then "" else if |e| == 1 then e[0] else e[0] + "," + Commas(e[1..])
  }

  lemma {:induction false} JoinedCommas(e: seq<string>)
    ensures Joined(e) == Commas(e)
  {
    if |e| > 1 {
      JoinedFront(e);
      JoinedCommas(e[1..]);
    }
  }

  // ---------------------------------------------------------------- what is written

  ghost function EachQuoted(s: seq<string>): (q: seq<string>) {
    seq(|s|, i requires 0 <= i < |s| => Quote(s[i]))
  }

  lemma {:induction false} QuotesEach(s: seq<string>)
    ensures Quotes(s) == EachQuoted(s)
  {
    if |s| > 0 {
      QuotesEach(s[1..]);
      assert s == [s[0]] + s[1..];
    }
  }

  lemma ListSpelled(s: seq<string>)
    ensures AllWritable(Strings(s)) && Text(Array(Strings(s))) == "[" + Commas(EachQuoted(s)) + "]"
  {
    StringsBack(s);
    QuotedParts(s);
    ElemsTextJoined(Strings(s));
    QuotesEach(s);
    hide Quote;
    JoinedCommas(Quotes(s));
  }

  /** A lease as it is stored and sent. */
  ghost function LeaseText(l: Lease): (t: string) {
    "{" + Commas([
      "\"kid\":" + Quote(l.kid), "\"licenseKeyHash\":" + Quote(l.licenseKeyHash), "\"instanceId\":" + Quote(l.instanceId),
      "\"issuedAt\":" + ToString(l.issuedAt), "\"expiresAt\":" + ToString(l.expiresAt), "\"status\":" + Quote(l.status),
      "\"entitlements\":" + ("[" + Commas(EachQuoted(l.entitlements)) + "]"), "\"signature\":" + Quote(l.signature)]) + "}"
  }

  lemma LeaseNames()
    ensures Name("kid") == "\"kid\":" && Name("licenseKeyHash") == "\"licenseKeyHash\":"
    ensures Name("instanceId") == "\"instanceId\":" && Name("issuedAt") == "\"issuedAt\":"
  {
  }

  lemma MoreNames()
    ensures Name("expiresAt") == "\"expiresAt\":" && Name("status") == "\"status\":"
    ensures Name("entitlements") == "\"entitlements\":" && Name("signature") == "\"signature\":"
  {
  }

  /** What is written for a lease. */
  lemma LeaseSpelled(l: Lease)
    ensures Writable(LeaseTree(l)) && Text(LeaseTree(l)) == LeaseText(l)
  {
    var m := LeaseMembers(l);
    LeaseWritable(l);
    MembersTextJoined(m);
    JoinedCommas(MemberParts(m));
    ListSpelled(l.entitlements);
    LeaseNames();
    MoreNames();
    assert Text(LeaseTree(l)) == "{" + MembersText(m) + "}";
    hide Text, LeaseMembers, MembersText, Joined, Commas, MemberParts, Name, Quote, ToString, Strings, EachQuoted;
    LeaseParts(l);
  }

  /** A member, if it has a text. */
  ghost function Part(name: string, text: Option<string>): (p: seq<string>) {
    if text.Some? then ["\"" + name + "\":" + text.value] else []
  }

  ghost function Flat(p: seq<seq<string>>): (q: seq<string>) {
    if |p| == 0 then [] else p[0] + Flat(p[1..])
  }

  ghost function Quoted(s: Option<string>): (t: Option<string>) {
    if s.Some? then Some(Quote(s.value)) else None
  }

  ghost function Counted(i: Option<i64>): (t: Option<string>) {
    if i.Some? then Some(ToString(i.value)) else None
  }

  /** What the client stores: the fields that are set, a time of zero counting as not set. */
  ghost function BlobParts(c: Cache): (p: seq<seq<string>>)
    ensures |p| == 12
  {
    [Part("lease", if c.lease.Some? then Some(LeaseText(c.lease.value)) else None),
     Part("expiresAt", Counted(c.expiresAt)),
     Part("instanceId", Quoted(c.instanceId)),
     Part("licenseKey", Quoted(c.licenseKey)),
     Part("lastValidatedOnline", if c.lastValidated == 0 then None else Some(ToString(c.lastValidated))),
     Part("trialStart", Counted(c.trialStart)),
     Part("freeTierInstanceId", Quoted(c.freeTierId)),
     Part("cachedHardwareId", Quoted(c.hardwareId)),
     Part("keylessLastState", Quoted(c.keylessState)),
     Part("lastKeylessPingAt", if c.keylessPing == 0 then None else Some(ToString(c.keylessPing))),
     Part("serverTrialDurationDays", if c.serverTrialDays.Some? then Some(ToString(c.serverTrialDays.value)) else None),
     Part("serverFreeTierEnabled",
       if c.serverFreeTier.Some? then Some(if c.serverFreeTier.value then "true" else "false") else None)]
  }

  ghost predicate ShowsAs(e: Entry, p: seq<string>) {
    if e.value.None? then p == []
    else Writable(e.value.value) && Letters(e.name) && p == ["\"" + e.name + "\":" + Text(e.value.value)]
  }

  lemma {:induction false} PartsFlat(e: seq<Entry>, p: seq<seq<string>>)
    requires |e| == |p| && forall i :: 0 <= i < |e| ==> ShowsAs(e[i], p[i])
    ensures MembersWritable(Present(e)) && MemberParts(Present(e)) == Flat(p)
  {
    if |e| > 0 {
      PartsFlat(e[1..], p[1..]);
      assert ShowsAs(e[0], p[0]);
      if e[0].value.Some? {
        var m := Member(e[0].name, e[0].value.value);
        assert Present(e)[1..] == Present(e[1..]);
        PlainPart(m);
      } else {
        assert Present(e) == Present(e[1..]) && Flat(p) == Flat(p[1..]);
      }
    }
  }

  lemma EntryShows(e: Entry, text: Option<string>)
    requires Letters(e.name) && (text.Some? <==> e.value.Some?)
    requires e.value.Some? ==> Writable(e.value.value) && Text(e.value.value) == text.value
    ensures ShowsAs(e, Part(e.name, text))
  {
  }

  lemma PaidEntries(c: Cache)
    ensures forall i :: 0 <= i < 4 ==> ShowsAs(Entries(c)[i], BlobParts(c)[i])
  {
    var e := Entries(c);
    PaidNames();
    hide Letters, Quote, ToString, LeaseText, LeaseTree, ShowsAs, Part;
    if c.lease.Some? {
      LeaseSpelled(c.lease.value);
    }
    EntryShows(e[0], if c.lease.Some? then Some(LeaseText(c.lease.value)) else None);
    EntryShows(e[1], Counted(c.expiresAt));
    EntryShows(e[2], Quoted(c.instanceId));
    EntryShows(e[3], Quoted(c.licenseKey));
  }

  lemma TimeEntries(c: Cache)
    ensures forall i :: 4 <= i < 7 ==> ShowsAs(Entries(c)[i], BlobParts(c)[i])
  {
    var e := Entries(c);
    TimeNames();
    KeylessNames();
    hide Letters, Quote, ToString, LeaseText, LeaseTree, ShowsAs, Part;
    EntryShows(e[4], if c.lastValidated == 0 then None else Some(ToString(c.lastValidated)));
    EntryShows(e[5], Counted(c.trialStart));
    EntryShows(e[6], Quoted(c.freeTierId));
  }

  lemma KeylessEntries(c: Cache)
    ensures forall i :: 7 <= i < 10 ==> ShowsAs(Entries(c)[i], BlobParts(c)[i])
  {
    var e := Entries(c);
    KeylessNames();
    ServerNames();
    hide Letters, Quote, ToString, LeaseText, LeaseTree, ShowsAs, Part;
    EntryShows(e[7], Quoted(c.hardwareId));
    EntryShows(e[8], Quoted(c.keylessState));
    EntryShows(e[9], if c.keylessPing == 0 then None else Some(ToString(c.keylessPing)));
  }

  lemma ServerEntries(c: Cache)
    ensures forall i :: 10 <= i < 12 ==> ShowsAs(Entries(c)[i], BlobParts(c)[i])
  {
    var e := Entries(c);
    ServerNames();
    hide Letters, Quote, ToString, LeaseText, LeaseTree, ShowsAs, Part;
    EntryShows(e[10], if c.serverTrialDays.Some? then Some(ToString(c.serverTrialDays.value)) else None);
    EntryShows(e[11], if c.serverFreeTier.Some? then Some(if c.serverFreeTier.value then "true" else "false") else None);
  }

  /** The blob, written out. */
  lemma BlobSpelled(c: Cache)
    ensures Writable(BlobTree(c)) && Text(BlobTree(c)) == "{" + Commas(Flat(BlobParts(c))) + "}"
  {
    PaidEntries(c);
    TimeEntries(c);
    KeylessEntries(c);
    ServerEntries(c);
    TreeWritable(c);
    hide Entries, BlobParts, ShowsAs;
    PartsFlat(Entries(c), BlobParts(c));
    MembersTextJoined(Present(Entries(c)));
    JoinedCommas(MemberParts(Present(Entries(c))));
    hide Present, MemberParts, MembersText;
  }

  // ---------------------------------------------------------------- what is read

  /** The value a member was last given. */
  ghost function Given(f: seq<Member>, name: string): (v: Value) {
    if Last(f, name) >= 0 then f[Last(f, name)].value else Null
  }

  lemma GetGiven(f: seq<Member>, name: string)
    ensures Get(Object(PutAll([], f)), name) == Given(f, name)
  {
    RepeatedNames(f);
    var n := PutAll([], f);
    if Last(f, name) >= 0 {
      assert Find(n, f[Last(f, name)].name) < |n|;
    }
    assert Find(n, name) < |n| ==> n[Find(n, name)].name == name;
  }

  ghost function Word(v: Value): (s: string) {
    if v.String? then v.s else ""
  }

  /** The entitlements a value lists: what is not a text counts as an empty one, an object's members too. */
  ghost predicate Lists(v: Value, s: seq<string>) {
    match v
    case Array(e) => |s| == |e| && forall i :: 0 <= i < |e| ==> s[i] == Word(e[i])
    case Object(m) => |s| == |m| && forall i :: 0 <= i < |m| ==> s[i] == ""
    case _ => s == []
  }

  lemma EntitlementsListed(v: Value)
    ensures Lists(v, Entitlements(v))
  {
    if v.Array? {
      forall i | 0 <= i < |v.elems|
        ensures Texts(v.elems)[i] == Word(v.elems[i])
      {
        TextAt(v.elems, i);
      }
    }
  }

  lemma ListsOne(v: Value, s: seq<string>, t: seq<string>)
    requires Lists(v, s) && Lists(v, t)
    ensures s == t
  {
  }

  /** A document with members in any order, some repeated, some unknown, gives the lease of the values given last. */
  lemma LeaseOfMembers(f: seq<Member>, l: Lease)
    ensures FromTree(Object(PutAll([], f))) == Some(l) <==>
      && l.kid == Word(Given(f, "kid")) && l.licenseKeyHash == Word(Given(f, "licenseKeyHash"))
      && l.instanceId == Word(Given(f, "instanceId")) && l.status == Word(Given(f, "status"))
      && l.signature == Word(Given(f, "signature")) && Lists(Given(f, "entitlements"), l.entitlements)
      && l.issuedAt == AsInt(Given(f, "issuedAt")) && l.expiresAt == AsInt(Given(f, "expiresAt"))
      && l.kid != "" && l.status != ""
  {
    GetGiven(f, "kid");
    GetGiven(f, "licenseKeyHash");
    GetGiven(f, "instanceId");
    GetGiven(f, "issuedAt");
    GetGiven(f, "expiresAt");
    GetGiven(f, "status");
    GetGiven(f, "signature");
    GetGiven(f, "entitlements");
    var v := Given(f, "entitlements");
    EntitlementsListed(v);
    hide Get, Given, PutAll, Entitlements, AsInt;
    if Lists(v, l.entitlements) {
      ListsOne(v, l.entitlements, Entitlements(v));
    }
    hide Lists;
  }
}
