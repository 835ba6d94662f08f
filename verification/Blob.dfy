/**
 * The client's cache and the blob it persists (include/keylight/client.hpp:1952-2041, 2230-2319):
 * what a relaunch reads back is what was written.
 */
module Blob {
  import opened Collections
  import opened Limbs
  import opened Json
  import opened Leases
  import JsonParser

  type i32 = x: int | -0x8000_0000 <= x < 0x8000_0000

  /** The fields `cached_*`; the two times that are plain integers use zero for "never". */
  datatype Cache = Cache(
    lease: Option<Lease>,
    expiresAt: Option<i64>,
    instanceId: Option<string>,
    licenseKey: Option<string>,
    lastValidated: i64,
    trialStart: Option<i64>,
    freeTierId: Option<string>,
    hardwareId: Option<string>,
    keylessState: Option<string>,
    keylessPing: i64,
    serverTrialDays: Option<i32>,
    serverFreeTier: Option<bool>)

  const EMPTY := Cache(None, None, None, None, 0, None, None, None, None, 0, None, None)

  // ---------------------------------------------------------------- the tree that is written

  /** A member that may be left out. */
  datatype Entry = Entry(name: string, value: Option<Value>)

  function Texted(s: Option<string>): (v: Option<Value>) {
    if s.Some? then Some(String(s.value)) else None
  }

  function Dated(i: Option<i64>): (v: Option<Value>) {
    if i.Some? then Some(Int(i.value)) else None
  }

  function Timed(i: i64): (v: Option<Value>) {
    if i != 0 then Some(Int(i)) else None
  }

  function Entries(c: Cache): (e: seq<Entry>)
    ensures |e| == 12
  {
    [Entry("lease", if c.lease.Some? then Some(LeaseTree(c.lease.value)) else None),
     Entry("expiresAt", Dated(c.expiresAt)),
     Entry("instanceId", Texted(c.instanceId)),
     Entry("licenseKey", Texted(c.licenseKey)),
     Entry("lastValidatedOnline", Timed(c.lastValidated)),
     Entry("trialStart", Dated(c.trialStart)),
     Entry("freeTierInstanceId", Texted(c.freeTierId)),
     Entry("cachedHardwareId", Texted(c.hardwareId)),
     Entry("keylessLastState", Texted(c.keylessState)),
     Entry("lastKeylessPingAt", Timed(c.keylessPing)),
     Entry("serverTrialDurationDays", if c.serverTrialDays.Some? then Some(Int(c.serverTrialDays.value)) else None),
     Entry("serverFreeTierEnabled", if c.serverFreeTier.Some? then Some(Bool(c.serverFreeTier.value)) else None)]
  }

  function Present(e: seq<Entry>): (m: seq<Member>) {
    if |e| == 0 then []
    else Shown(e[0]) + Present(e[1..])
  }

  function Shown(e: Entry): (m: seq<Member>) {
    if e.value.Some? then [Member(e.name, e.value.value)] else []
  }

  function BlobTree(c: Cache): (v: Value) {
    Object(Present(Entries(c)))
  }

  // ---------------------------------------------------------------- reading it back

  function NonEmpty(v: Value): (s: Option<string>) {
    if AsString(v) != "" then Some(AsString(v)) else None
  }

  function NonZero(v: Value): (i: Option<i64>) {
    if AsInt(v) != 0 then Some(AsInt(v)) else None
  }

  /** `static_cast<int>`: the low 32 bits. */
  function Cast32(i: i64): (j: i32) {
    (i + 0x8000_0000) % 0x1_0000_0000 - 0x8000_0000
  }

  /** The fields `refresh_state_from_store_` takes from a parsed blob. */
  function CacheFrom(v: Value): (c: Cache) {
    Cache(
      if Size(Get(v, "lease")) > 0 then FromTree(Get(v, "lease")) else None,
      NonZero(Get(v, "expiresAt")),
      NonEmpty(Get(v, "instanceId")),
      NonEmpty(Get(v, "licenseKey")),
      AsInt(Get(v, "lastValidatedOnline")),
      NonZero(Get(v, "trialStart")),
      NonEmpty(Get(v, "freeTierInstanceId")),
      NonEmpty(Get(v, "cachedHardwareId")),
      NonEmpty(Get(v, "keylessLastState")),
      AsInt(Get(v, "lastKeylessPingAt")),
      if Has(v, "serverTrialDurationDays") then Some(Cast32(AsInt(Get(v, "serverTrialDurationDays")))) else None,
      if Has(v, "serverFreeTierEnabled") then Some(AsBool(Get(v, "serverFreeTierEnabled"))) else None)
  }

  function Filled(s: Option<string>): (t: Option<string>) {
    if s == Some("") then None else s
  }

  function Nonzero(i: Option<i64>): (j: Option<i64>) {
    if i == Some(0) then None else i
  }

  /** A lease without key id or status does not read back. */
  function Complete(l: Option<Lease>): (m: Option<Lease>) {
    if l.Some? && (l.value.kid == "" || l.value.status == "") then None else l
  }

  /** The cache after a relaunch: empty strings and zero times have become absent. */
  function Reloaded(c: Cache): (d: Cache) {
    c.(lease := Complete(c.lease), expiresAt := Nonzero(c.expiresAt), instanceId := Filled(c.instanceId),
       licenseKey := Filled(c.licenseKey), trialStart := Nonzero(c.trialStart), freeTierId := Filled(c.freeTierId),
       hardwareId := Filled(c.hardwareId), keylessState := Filled(c.keylessState))
  }

  // ---------------------------------------------------------------- lookups

  ghost predicate Apart(e: seq<Entry>) {
    forall i, j :: 0 <= i < j < |e| ==> e[i].name != e[j].name
  }

  lemma EntriesApart(c: Cache)
    ensures Apart(Entries(c))
  {
    var e := Entries(c);
    assert |e[0].name| == 5 && |e[1].name| == 9 && |e[2].name| == 10 && |e[3].name| == 10;
    assert |e[4].name| == 19 && |e[5].name| == 10 && |e[6].name| == 18 && |e[7].name| == 16;
    assert |e[8].name| == 16 && |e[9].name| == 17 && |e[10].name| == 23 && |e[11].name| == 21;
    assert e[2].name[0] == 'i' && e[3].name[0] == 'l' && e[5].name[0] == 't';
    assert e[7].name[0] == 'c' && e[8].name[0] == 'k';
  }

  lemma {:induction false} PresentNames(e: seq<Entry>, k: nat)
    requires k < |Present(e)|
    ensures exists i :: 0 <= i < |e| && e[i].name == Present(e)[k].name && e[i].value == Some(Present(e)[k].value)
  {
    var n := |Shown(e[0])|;
    if k < n {
      assert e[0].name == Present(e)[k].name;
    } else {
      PresentNames(e[1..], k - n);
      var i :| 0 <= i < |e[1..]| && e[1..][i].name == Present(e[1..])[k - n].name
        && e[1..][i].value == Some(Present(e[1..])[k - n].value);
      assert e[i + 1].name == Present(e)[k].name;
    }
  }

  lemma {:induction false} PresentDistinct(e: seq<Entry>)
    requires Apart(e)
    ensures Distinct(Present(e))
  {
    if |e| > 0 {
      assert Apart(e[1..]);
      PresentDistinct(e[1..]);
      var rest := Present(e[1..]);
      forall k | 0 <= k < |rest|
        ensures rest[k].name != e[0].name
      {
        PresentNames(e[1..], k);
      }
    }
  }

  ghost predicate EntriesWritable(e: seq<Entry>) {
    forall i :: 0 <= i < |e| && e[i].value.Some? ==> Writable(e[i].value.value)
  }

  lemma {:induction false} PresentWritable(e: seq<Entry>)
    requires EntriesWritable(e)
    ensures MembersWritable(Present(e))
  {
    if |e| > 0 {
      PresentWritable(e[1..]);
      assert EntriesWritable(e[1..]);
      if e[0].value.Some? {
        assert Present(e)[1..] == Present(e[1..]);
      } else {
        assert Present(e) == Present(e[1..]);
      }
    }
  }

  function ShownBack(v: Option<Value>): (w: Value) {
    if v.Some? then Back(v.value) else Null
  }

  lemma GetCons(x: Member, rest: seq<Member>, name: string)
    ensures Get(Object([x] + rest), name) == if x.name == name then x.value else Get(Object(rest), name)
    ensures Has(Object([x] + rest), name) <==> x.name == name || Has(Object(rest), name)
  {
    assert ([x] + rest)[1..] == rest;
  }

  lemma {:induction false} GetMissing(e: seq<Entry>, name: string)
    requires forall i :: 0 <= i < |e| ==> e[i].name != name
    ensures Get(Object(BackMembers(Present(e))), name) == Null && !Has(Object(BackMembers(Present(e))), name)
  {
    var b := BackMembers(Present(e));
    forall k | 0 <= k < |b|
      ensures b[k].name != name
    {
      PresentNames(e, k);
    }
  }

  /** Looking up the name of an entry in what was read back. */
  lemma {:induction false} PresentGet(e: seq<Entry>, i: nat)
    requires Apart(e) && i < |e|
    ensures Get(Object(BackMembers(Present(e))), e[i].name) == ShownBack(e[i].value)
    ensures Has(Object(BackMembers(Present(e))), e[i].name) <==> e[i].value.Some?
  {
    hide Get, Has, BackMembers, Present, Back;
    var rest := BackMembers(Present(e[1..]));
    ShownFirst(e);
    if e[0].value.Some? {
      GetCons(Member(e[0].name, Back(e[0].value.value)), rest, e[i].name);
    } else {
      assert [] + rest == rest;
    }
    if i > 0 {
      assert Apart(e[1..]) && e[0].name != e[i].name && e[1..][i - 1] == e[i];
      PresentGet(e[1..], i - 1);
    } else if e[0].value.None? {
      GetMissing(e[1..], e[0].name);
    }
  }

  lemma ShownFirst(e: seq<Entry>)
    requires |e| > 0
    ensures BackMembers(Present(e)) ==
      (if e[0].value.Some? then [Member(e[0].name, Back(e[0].value.value))] else []) + BackMembers(Present(e[1..]))
  {
    if e[0].value.Some? {
      assert Present(e)[1..] == Present(e[1..]);
    } else {
      assert Present(e) == Present(e[1..]);
    }
  }

  lemma EntriesAreWritable(c: Cache)
    ensures EntriesWritable(Entries(c))
  {
    if c.lease.Some? {
      LeaseWritable(c.lease.value);
    }
  }

  lemma TreeWritable(c: Cache)
    ensures Writable(BlobTree(c))
  {
    EntriesApart(c);
    EntriesAreWritable(c);
    PresentDistinct(Entries(c));
    PresentWritable(Entries(c));
  }

  // ---------------------------------------------------------------- the round trip

  lemma Looked(c: Cache, i: nat)
    requires i < 12
    ensures Get(Back(BlobTree(c)), Entries(c)[i].name) == ShownBack(Entries(c)[i].value)
    ensures Has(Back(BlobTree(c)), Entries(c)[i].name) <==> Entries(c)[i].value.Some?
  {
    EntriesApart(c);
    hide Entries;
    PresentGet(Entries(c), i);
  }

  lemma BackInt(i: i64)
    ensures AsInt(Back(Int(i))) == i
  {
    IntReads(i, "");
  }

  lemma LeaseBack(l: Lease)
    ensures Size(Back(LeaseTree(l))) > 0
    ensures FromTree(Back(LeaseTree(l))) == Complete(Some(l))
  {
    LeaseRoundTrip(l);
  }

  /** The lease and the dates read back. */
  lemma ReloadsPaid(c: Cache)
    ensures var d, r := CacheFrom(Back(BlobTree(c))), Reloaded(c);
      d.lease == r.lease && d.expiresAt == r.expiresAt && d.instanceId == r.instanceId && d.licenseKey == r.licenseKey
      && d.lastValidated == r.lastValidated && d.trialStart == r.trialStart
  {
    hide BlobTree, Get, Has, LeaseTree, FromTree;
    Looked(c, 0);
    Looked(c, 1);
    Looked(c, 2);
    Looked(c, 3);
    Looked(c, 4);
    Looked(c, 5);
    if c.lease.Some? {
      LeaseBack(c.lease.value);
    }
    if c.expiresAt.Some? {
      BackInt(c.expiresAt.value);
    }
    BackInt(c.lastValidated);
    if c.trialStart.Some? {
      BackInt(c.trialStart.value);
    }
  }

  lemma ReloadsKeyless(c: Cache)
    ensures var d, r := CacheFrom(Back(BlobTree(c))), Reloaded(c);
      d.freeTierId == r.freeTierId && d.hardwareId == r.hardwareId && d.keylessState == r.keylessState
      && d.keylessPing == r.keylessPing && d.serverTrialDays == r.serverTrialDays && d.serverFreeTier == r.serverFreeTier
  {
    hide BlobTree, Get, Has, LeaseTree, FromTree;
    Looked(c, 6);
    Looked(c, 7);
    Looked(c, 8);
    Looked(c, 9);
    Looked(c, 10);
    Looked(c, 11);
    BackInt(c.keylessPing);
    if c.serverTrialDays.Some? {
      BackInt(c.serverTrialDays.value);
    }
  }

  /** Parsing the blob and loading it gives the cache back. */
  lemma BlobRoundTrip(c: Cache)
    ensures Writable(BlobTree(c)) && Parse(Text(BlobTree(c))) == Some(Back(BlobTree(c)))
    ensures CacheFrom(Back(BlobTree(c))) == Reloaded(c)
  {
    hide CacheFrom, Reloaded, BlobTree, Parse, Text;
    TreeWritable(c);
    ParseText(BlobTree(c));
    ReloadsPaid(c);
    ReloadsKeyless(c);
  }

  /** Nothing is lost exactly when the cache has no empty string, no zero date and no incomplete lease. */
  lemma ReloadsItself(c: Cache)
    ensures Reloaded(c) == c <==>
      && (c.lease.Some? ==> c.lease.value.kid != "" && c.lease.value.status != "")
      && c.expiresAt != Some(0) && c.trialStart != Some(0) && c.instanceId != Some("") && c.licenseKey != Some("")
      && c.freeTierId != Some("") && c.hardwareId != Some("") && c.keylessState != Some("")
  {
  }

  /** `persist_` parses the lease it has just written and caches that very lease. */
  lemma PersistsTheLease(l: Lease)
    requires l.kid != "" && l.status != ""
    ensures Writable(LeaseTree(l)) && Parse(Text(LeaseTree(l))).Some?
    ensures FromTree(Parse(Text(LeaseTree(l))).value) == Some(l)
  {
    LeaseWritable(l);
    ParseText(LeaseTree(l));
    LeaseRoundTrip(l);
  }

  /** The first half of `refresh_state_from_store_`: the text of a blob becomes the cache. */
  method LoadBlob(text: string) returns (r: Option<Cache>)
    ensures r == if Parse(text).Some? then Some(CacheFrom(Parse(text).value)) else None
    ensures forall c: Cache :: Writable(BlobTree(c)) && text == Text(BlobTree(c)) ==> r == Some(Reloaded(c))
  {
    var j := JsonParser.ParseText(text);
    forall c: Cache | Writable(BlobTree(c)) && text == Text(BlobTree(c))
      ensures j.Some? && CacheFrom(j.value) == Reloaded(c)
    {
      BlobRoundTrip(c);
    }
    r := if j.Some? then Some(CacheFrom(j.value)) else None;
  }

  // ---------------------------------------------------------------- the writer

  lemma {:induction false} PresentAppend(done: seq<Entry>, e: Entry)
    ensures Present(done + [e]) == Present(done) + Shown(e)
  {
    if |done| > 0 {
      assert (done + [e])[1..] == done[1..] + [e];
      PresentAppend(done[1..], e);
    } else {
      assert Present([e]) == Shown(e) + Present([]);
    }
  }

  lemma {:induction false} PartsAppend(m: seq<Member>, x: Member)
    requires MembersWritable(m) && Writable(x.value)
    ensures MembersWritable(m + [x]) && MemberParts(m + [x]) == MemberParts(m) + [MemberPart(x)]
  {
    if |m| > 0 {
      assert (m + [x])[1..] == m[1..] + [x];
      PartsAppend(m[1..], x);
    }
  }

  /** The blob so far holds the entries `done`. */
  ghost predicate Built(blob: string, first: bool, done: seq<Entry>) {
    && MembersWritable(Present(done))
    && blob == "{" + Joined(MemberParts(Present(done)))
    && (first <==> Present(done) == [])
  }

  /** The local `append` of the serializer, on a field that may be absent. */
  method Append(blob: string, first: bool, name: string, text: Option<string>, ghost e: Entry, ghost done: seq<Entry>)
    returns (b: string, f: bool)
    requires Built(blob, first, done) && e.name == name && Letters(name)
    requires text.Some? <==> e.value.Some?
    requires e.value.Some? ==> Writable(e.value.value) && text.value == Text(e.value.value)
    ensures Built(b, f, done + [e])
  {
    b, f := blob, first;
    PresentAppend(done, e);
    if text.Some? {
      var kv := Name(name) + text.value;
      ghost var m := Present(done);
      ghost var x := Member(name, e.value.value);
      PlainPart(x);
      PartsAppend(m, x);
      JoinedAppend(MemberParts(m), kv);
      if !first {
        b := b + ",";
      }
      b := b + kv;
      f := false;
    } else {
      assert Present(done) + [] == Present(done);
    }
  }

  function TextOf(s: Option<string>): (t: Option<string>) {
    if s.Some? then Some(Quote(s.value)) else None
  }

  function DateOf(i: Option<i64>): (t: Option<string>) {
    if i.Some? then Some(ToString(i.value)) else None
  }

  function TimeOf(i: i64): (t: Option<string>) {
    if i != 0 then Some(ToString(i)) else None
  }

  lemma PaidNames()
    ensures Letters("lease") && Letters("expiresAt") && Letters("instanceId") && Letters("licenseKey")
  {
  }

  lemma TimeNames()
    ensures Letters("lastValidatedOnline") && Letters("trialStart")
  {
  }

  lemma KeylessNames()
    ensures Letters("freeTierInstanceId") && Letters("cachedHardwareId") && Letters("keylessLastState")
  {
  }

  lemma ServerNames()
    ensures Letters("lastKeylessPingAt") && Letters("serverTrialDurationDays") && Letters("serverFreeTierEnabled")
  {
  }

  /** The first six fields of the blob. */
  method AppendPaid(c: Cache, ghost e: seq<Entry>) returns (blob: string, first: bool)
    requires e == Entries(c)
    ensures Built(blob, first, e[..6])
  {
    EntriesAreWritable(c);
    PaidNames();
    TimeNames();
    NothingBuilt();
    hide Built, Letters, Quote, ToString, EntriesWritable, LeaseTree;
    var lease: Option<string> := None;
    if c.lease.Some? {
      var t := LeaseToJson(c.lease.value);
      lease := Some(t);
    }
    assert e[..0] == [] && e[..1] == e[..0] + [e[0]] && e[..2] == e[..1] + [e[1]] && e[..3] == e[..2] + [e[2]];
    assert e[..4] == e[..3] + [e[3]] && e[..5] == e[..4] + [e[4]] && e[..6] == e[..5] + [e[5]];
    hide Entries;
    blob, first := Append("{", true, "lease", lease, e[0], e[..0]);
    blob, first := Append(blob, first, "expiresAt", DateOf(c.expiresAt), e[1], e[..1]);
    blob, first := Append(blob, first, "instanceId", TextOf(c.instanceId), e[2], e[..2]);
    blob, first := Append(blob, first, "licenseKey", TextOf(c.licenseKey), e[3], e[..3]);
    blob, first := Append(blob, first, "lastValidatedOnline", TimeOf(c.lastValidated), e[4], e[..4]);
    blob, first := Append(blob, first, "trialStart", DateOf(c.trialStart), e[5], e[..5]);
  }

  /** The others. */
  method AppendKeyless(c: Cache, ghost e: seq<Entry>, blob: string, first: bool) returns (b: string, f: bool)
    requires e == Entries(c) && Built(blob, first, e[..6])
    ensures Built(b, f, e)
  {
    EntriesAreWritable(c);
    KeylessNames();
    ServerNames();
    hide Built, Letters, Quote, ToString, EntriesWritable, LeaseTree;
    assert e[..7] == e[..6] + [e[6]] && e[..8] == e[..7] + [e[7]] && e[..9] == e[..8] + [e[8]];
    assert e[..10] == e[..9] + [e[9]] && e[..11] == e[..10] + [e[10]] && e == e[..11] + [e[11]];
    var days: Option<string> := if c.serverTrialDays.Some? then Some(ToString(c.serverTrialDays.value)) else None;
    var free: Option<string> := if c.serverFreeTier.None? then None else if c.serverFreeTier.value then Some("true") else Some("false");
    b, f := Append(blob, first, "freeTierInstanceId", TextOf(c.freeTierId), e[6], e[..6]);
    b, f := Append(b, f, "cachedHardwareId", TextOf(c.hardwareId), e[7], e[..7]);
    b, f := Append(b, f, "keylessLastState", TextOf(c.keylessState), e[8], e[..8]);
    b, f := Append(b, f, "lastKeylessPingAt", TimeOf(c.keylessPing), e[9], e[..9]);
    b, f := Append(b, f, "serverTrialDurationDays", days, e[10], e[..10]);
    b, f := Append(b, f, "serverFreeTierEnabled", free, e[11], e[..11]);
  }

  /** `build_blob_locked_`. */
  method BuildBlob(c: Cache) returns (blob: string)
    ensures Writable(BlobTree(c)) && blob == Text(BlobTree(c))
  {
    hide Built, BlobTree;
    ghost var e := Entries(c);
    var first;
    blob, first := AppendPaid(c, e);
    blob, first := AppendKeyless(c, e, blob, first);
    BuiltAll(blob, first, c);
    blob := blob + "}";
  }

  lemma NothingBuilt()
    ensures Built("{", true, [])
  {
  }

  lemma BuiltAll(blob: string, first: bool, c: Cache)
    requires Built(blob, first, Entries(c))
    ensures Writable(BlobTree(c)) && blob + "}" == Text(BlobTree(c))
  {
    TreeWritable(c);
    MembersTextJoined(Present(Entries(c)));
  }
}
