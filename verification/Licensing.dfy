/**
 * What the client's calls do to the license state, the cache and the store
 * (include/keylight/client.hpp:341-581, 746-811, 970-1019, 1864-2085, 2152-2200, 2401-2535). One
 * clock reading serves a whole call; lease verification is a parameter; the server says anything.
 */
module Licensing {
  import opened Collections
  import opened Limbs
  import opened Json
  import opened Leases
  import opened Blob
  import opened States

  // ---------------------------------------------------------------- inputs

  datatype Config = Config(trusted: Lease -> bool, maxOfflineDays: i32, trialDays: i32, freeTier: bool)

  /** The server-owned settings a reply may carry; `verified` is the verdict of `verify_config_`. */
  datatype Settings = Settings(trialDays: Option<i32>, freeTier: Option<bool>, verified: bool)

  datatype LeaseField = NoLease | BadLease | HasLease(lease: Lease)

  datatype Body =
    | Undecodable
    | Decoded(activated: bool, lease: LeaseField, expires: i64, instanceId: string, settings: Settings)

  datatype Reply = NoContact | Answer(status: int, body: Body)

  datatype Outcome = Resolved(state: State) | Done | Failed

  /** `state_`, the `cached_*` fields, and the cache whose blob the store holds. */
  datatype World = World(state: State, cache: Cache, disk: Option<Cache>)

  const DAY: int := 86400
  const SKEW: int := 300
  const TOLERANCE: int := 3600
  const DEBOUNCE: int := 300
  const STALE: int := 21600

  // ---------------------------------------------------------------- reading the clock

  /** The clock is behind the last server contact by more than the tolerance. */
  predicate RolledBack(anchor: int, now: int) {
    anchor - now > TOLERANCE
  }

  predicate Untrusted(c: Cache, now: int) {
    c.lastValidated != 0 && RolledBack(c.lastValidated, now)
  }

  /** `state()`. */
  function Reported(w: World, now: int): State {
    if Untrusted(w.cache, now) then Invalid else w.state
  }

  predicate LeaseExpired(l: Lease, now: int) {
    now > l.expiresAt + SKEW
  }

  /** The state a lease stands for. */
  function Judge(cfg: Config, l: Lease, now: int): State {
    if !cfg.trusted(l) then Invalid
    else if l.status == "active" then if LeaseExpired(l, now) then Expired else Licensed
    else if l.status == "fallback" then Limited
    else Expired
  }

  // ---------------------------------------------------------------- the trial

  datatype TrialStatus = NotStarted | Active | Elapsed

  function TrialDays(cfg: Config, c: Cache): int {
    if c.serverTrialDays.Some? then c.serverTrialDays.value else cfg.trialDays
  }

  function FreeTierOn(cfg: Config, c: Cache): bool {
    if c.serverFreeTier.Some? then c.serverFreeTier.value else cfg.freeTier
  }

  function DaysLeftFrom(start: int, days: int, now: int): int {
    var elapsed := if now - start < 0 then 0 else now - start;
    days - elapsed / DAY
  }

  function CheckTrial(cfg: Config, c: Cache, now: int): TrialStatus {
    if TrialDays(cfg, c) <= 0 || c.trialStart.None? then NotStarted
    else if DaysLeftFrom(c.trialStart.value, TrialDays(cfg, c), now) > 0 then Active
    else Elapsed
  }

  function DaysLeft(cfg: Config, c: Cache, now: int): int {
    if TrialDays(cfg, c) <= 0 || c.trialStart.None? then 0
    else
      var left := DaysLeftFrom(c.trialStart.value, TrialDays(cfg, c), now);
      if left > 0 then left else 0
  }

  /** Paid, then trial, then free tier, then elapsed trial. */
  function WithTrial(cfg: Config, c: Cache, paid: State, now: int): State {
    if paid != Invalid then paid
    else match CheckTrial(cfg, c, now)
      case Active => Trial
      case Elapsed => if FreeTierOn(cfg, c) then FreeTier else Expired
      case NotStarted => if FreeTierOn(cfg, c) then FreeTier else Invalid
  }

  predicate HasKey(c: Cache) {
    c.licenseKey.Some? && c.licenseKey.value != ""
  }

  function Current(cfg: Config, w: World, now: int): State {
    if w.cache.lease.Some? || HasKey(w.cache) then w.state else WithTrial(cfg, w.cache, Invalid, now)
  }

  // ---------------------------------------------------------------- the store

  /** Which of the saves a call may make the store takes, each on its own. */
  datatype Saves = Saves(settings: bool, paid: bool, contact: bool, trial: bool, freeTier: bool)

  function Written(w: World, ok: bool): World {
    if ok then w.(disk := Some(w.cache)) else w
  }

  function Contacted(w: World, now: i64, ok: bool): World {
    Written(w.(cache := w.cache.(lastValidated := now)), ok)
  }

  function Given(i: i64): Option<i64> {
    if i != 0 then Some(i) else None
  }

  function Or<T>(a: Option<T>, b: Option<T>): Option<T> {
    if a.Some? then a else b
  }

  // ---------------------------------------------------------------- replies

  function Absorb(w: World, s: Settings, ok: bool): World {
    if (s.trialDays.None? && s.freeTier.None?) || !s.verified then w
    else Written(w.(cache := w.cache.(serverTrialDays := Or(s.trialDays, w.cache.serverTrialDays),
                                      serverFreeTier := Or(s.freeTier, w.cache.serverFreeTier))), ok)
  }

  /** A trusted lease goes into cache and store, and then the contact does. */
  function Keep(cfg: Config, w: World, l: Lease, expires: i64, now: i64, saves: Saves): World {
    if !cfg.trusted(l) then w
    else
      var c := w.cache.(lease := Some(l), expiresAt := Or(Given(expires), w.cache.expiresAt));
      Contacted(Written(w.(cache := c), saves.paid), now, saves.contact)
  }

  function Accept(cfg: Config, w: World, b: Body, now: i64, saves: Saves): World
    requires b.Decoded?
  {
    var w := Absorb(w, b.settings, saves.settings);
    var w := if b.lease.HasLease? then Keep(cfg, w, b.lease.lease, b.expires, now, saves) else w;
    w.(state := WithTrial(cfg, w.cache, if b.lease.HasLease? then Judge(cfg, b.lease.lease, now) else w.state, now))
  }

  /** A 422 that can be read. */
  function Rejected(cfg: Config, w: World, b: Body, now: i64, saves: Saves): World
    requires b.Decoded?
  {
    if b.lease.HasLease? then
      var w := Keep(cfg, w, b.lease.lease, b.expires, now, saves);
      w.(state := WithTrial(cfg, w.cache, Judge(cfg, b.lease.lease, now), now))
    else
      Written(w.(cache := w.cache.(lease := None)), saves.paid).(state := Invalid)
  }

  predicate Rejects(r: Reply) {
    r.Answer? && r.status == 422 && r.body.Decoded?
  }

  predicate Accepts(r: Reply) {
    r.Answer? && r.status == 200 && r.body.Decoded?
  }

  // ---------------------------------------------------------------- calls

  function Validated(cfg: Config, w: World, r: Reply, now: i64, saves: Saves): World {
    if Rejects(r) then Rejected(cfg, w, r.body, now, saves)
    else if Accepts(r) then Accept(cfg, w, r.body, now, saves)
    else w
  }

  /** Out of grace: nothing cached, past the lease's own expiry, or too long without the server. */
  predicate GraceOver(cfg: Config, c: Cache, now: int) {
    || c.lease.None?
    || now > c.lease.value.expiresAt
    || (cfg.maxOfflineDays > 0 && (c.lastValidated <= 0 || now - c.lastValidated > cfg.maxOfflineDays * DAY))
  }

  function Graced(cfg: Config, w: World, now: int): World {
    if GraceOver(cfg, w.cache, now) && w.state == Licensed then w.(state := Expired) else w
  }

  function Reconciled(cfg: Config, w: World, r: Reply, now: i64, saves: Saves): World {
    if Rejects(r) || Accepts(r) then Validated(cfg, w, r, now, saves) else Graced(cfg, w, now)
  }

  predicate RefreshDue(c: Cache, now: int) {
    var has := c.lastValidated > 0;
    && !(has && now - c.lastValidated < DEBOUNCE)
    && (!has || now - c.lastValidated >= STALE || (c.lease.Some? && c.lease.value.expiresAt - now < DAY))
  }

  function Refreshed(cfg: Config, w: World, r: Reply, now: i64, saves: Saves): World {
    if !HasKey(w.cache) then w.(state := Current(cfg, w, now))
    else if RefreshDue(w.cache, now) then Reconciled(cfg, w, r, now, saves)
    else w
  }

  function Launched(cfg: Config, w: World, r: Reply, now: i64, saves: Saves): World {
    if !HasKey(w.cache) then w.(state := Current(cfg, w, now)) else Reconciled(cfg, w, r, now, saves)
  }

  /** The reply activates the key, and its lease, if any, can be read. */
  predicate Activates(r: Reply) {
    Accepts(r) && r.body.activated && !r.body.lease.BadLease?
  }

  function Activated(cfg: Config, w: World, key: string, r: Reply, now: i64, saves: Saves): World {
    if !Activates(r) then w
    else
      var b := r.body;
      var c := w.cache.(expiresAt := Or(Given(b.expires), w.cache.expiresAt),
                        instanceId := if b.instanceId != "" then Some(b.instanceId) else w.cache.instanceId,
                        licenseKey := Some(key));
      match b.lease
      case HasLease(l) =>
        var kept := Written(w.(cache := c.(lease := Some(l))), saves.paid);
        var w := if cfg.trusted(l) then Contacted(kept, now, saves.contact) else w;
        w.(state := WithTrial(cfg, w.cache, Judge(cfg, l, now), now))
      case _ => Written(w.(cache := c), saves.paid).(state := Licensed)
  }

  function ActivateOutcome(cfg: Config, w: World, key: string, r: Reply, now: i64, saves: Saves): Outcome {
    if Accepts(r) && !(r.body.activated && r.body.lease.BadLease?)
    then Resolved(Reported(Activated(cfg, w, key, r, now, saves), now)) else Failed
  }

  function Forgotten(c: Cache): Cache {
    c.(lease := None, expiresAt := None, instanceId := None, licenseKey := None, lastValidated := 0)
  }

  /** The cache is cleared first; a store that refuses leaves the state as it was. */
  function Deactivated(cfg: Config, w: World, now: i64, saves: Saves): World {
    var c := Forgotten(w.cache);
    if !saves.paid then w.(cache := c)
    else World(WithTrial(cfg, c, Invalid, now), c, if c.trialStart.Some? then Some(c) else None)
  }

  function DeactivateOutcome(w: World, r: Reply, saves: Saves): Outcome {
    var asked := w.cache.instanceId.Some? && w.cache.instanceId.value != "";
    if !saves.paid || (asked && !(r.Answer? && r.status == 200)) then Failed else Done
  }

  function TrialStarted(cfg: Config, w: World, id: string, now: i64, saves: Saves): World {
    var w := if w.cache.trialStart.Some? then w else Written(w.(cache := w.cache.(trialStart := Some(now))), saves.trial);
    var w := if w.cache.freeTierId.Some? || !saves.freeTier then w
             else Written(w.(cache := w.cache.(freeTierId := Some(id))), true);
    w.(state := Current(cfg, w, now))
  }

  predicate ConfigArrives(r: Reply) {
    r.Answer? && r.status == 200 && r.body.Decoded? && r.body.settings.verified
  }

  function Configured(cfg: Config, w: World, r: Reply, now: i64, saves: Saves): World {
    if !ConfigArrives(r) then w
    else
      var w := Absorb(w, r.body.settings, saves.settings);
      w.(state := Current(cfg, w, now))
  }

  /** Too old, unrecorded, or ahead of the clock. */
  predicate AnchorFails(cfg: Config, anchor: int, now: int) {
    anchor == 0 || RolledBack(anchor, now) || now - anchor > cfg.maxOfflineDays * DAY
  }

  /** A new process: the cache comes from the store, and nothing else survives. */
  function Relaunched(cfg: Config, w: World, now: int): World {
    if w.disk.None? then World(Invalid, EMPTY, None)
    else
      var c := Reloaded(w.disk.value);
      var judged := if c.lease.Some? then Judge(cfg, c.lease.value, now) else Invalid;
      var stale := cfg.maxOfflineDays > 0 && AnchorFails(cfg, c.lastValidated, now);
      var paid := if judged != Invalid && stale then Expired else judged;
      World(WithTrial(cfg, c, paid, now), c, w.disk)
  }

  // ---------------------------------------------------------------- runs

  datatype Call =
    | Activate(key: string, reply: Reply)
    | Validate(reply: Reply)
    | Refresh(reply: Reply)
    | Launch(reply: Reply)
    | Deactivate(reply: Reply)
    | StartTrial(id: string)
    | FetchConfig(reply: Reply)
    | Relaunch

  /** One call, the clock it read, and what the store took. */
  datatype Event = Event(call: Call, now: i64, saves: Saves)

  function Step(cfg: Config, w: World, e: Event): World {
    match e.call
    case Activate(key, r) => Activated(cfg, w, key, r, e.now, e.saves)
    case Validate(r) => Validated(cfg, w, r, e.now, e.saves)
    case Refresh(r) => Refreshed(cfg, w, r, e.now, e.saves)
    case Launch(r) => Launched(cfg, w, r, e.now, e.saves)
    case Deactivate(r) => Deactivated(cfg, w, e.now, e.saves)
    case StartTrial(id) => TrialStarted(cfg, w, id, e.now, e.saves)
    case FetchConfig(r) => Configured(cfg, w, r, e.now, e.saves)
    case Relaunch => Relaunched(cfg, w, e.now)
  }

  function Result(cfg: Config, w: World, e: Event): Outcome {
    match e.call
    case Activate(key, r) => ActivateOutcome(cfg, w, key, r, e.now, e.saves)
    case Deactivate(r) => DeactivateOutcome(w, r, e.saves)
    case FetchConfig(r) => if ConfigArrives(r) then Done else Failed
    case Relaunch => Done
    case _ => Resolved(Reported(Step(cfg, w, e), e.now))
  }

  function Run(cfg: Config, w: World, run: seq<Event>): World
    decreases |run|
  {
    if |run| == 0 then w else Run(cfg, Step(cfg, w, run[0]), run[1..])
  }

  // ---------------------------------------------------------------- where Licensed comes from

  /** A lease that makes the app Licensed at this clock. */
  ghost predicate Grants(cfg: Config, l: Lease, now: int) {
    cfg.trusted(l) && l.status == "active" && !LeaseExpired(l, now)
  }

  function ReplyOf(c: Call): Option<Reply> {
    match c
    case Activate(_, r) => Some(r)
    case Validate(r) => Some(r)
    case Refresh(r) => Some(r)
    case Launch(r) => Some(r)
    case _ => None
  }

  /** The call asks the server to validate and reads what it answers. */
  ghost predicate Consults(w: World, e: Event) {
    match e.call
    case Validate(r) => Accepts(r) || Rejects(r)
    case Refresh(r) => HasKey(w.cache) && RefreshDue(w.cache, e.now) && (Accepts(r) || Rejects(r))
    case Launch(r) => HasKey(w.cache) && (Accepts(r) || Rejects(r))
    case _ => false
  }

  /** The lease field of the reply that the call reads. */
  ghost function Received(w: World, e: Event): LeaseField {
    if Consults(w, e) || (e.call.Activate? && Activates(e.call.reply)) then ReplyOf(e.call).value.body.lease else NoLease
  }

  ghost predicate ActivatesBare(c: Call) {
    c.Activate? && Activates(c.reply) && c.reply.body.lease.NoLease?
  }

  /** The server grants a license: a lease good at this clock, or an activation without one. */
  ghost predicate Granted(cfg: Config, w: World, e: Event) {
    ActivatesBare(e.call) || (Received(w, e).HasLease? && Grants(cfg, Received(w, e).lease, e.now))
  }

  /** The stored lease makes a relaunch Licensed: it loads, grants, and its anchor is recent enough. */
  ghost predicate StoreGrants(cfg: Config, w: World, now: int) {
    && w.disk.Some? && w.disk.value.lease.Some? && w.disk.value.lease.value.kid != ""
    && Grants(cfg, w.disk.value.lease.value, now)
    && (cfg.maxOfflineDays > 0 ==> !AnchorFails(cfg, w.disk.value.lastValidated, now))
  }

  /** A call makes the app Licensed exactly if the server grants it, or a new process finds it in the store. */
  lemma LicensedHasReason(cfg: Config, w: World, e: Event)
    requires w.state != Licensed || e.call.Relaunch?
    ensures Step(cfg, w, e).state == Licensed <==>
      Granted(cfg, w, e) || (e.call.Relaunch? && StoreGrants(cfg, w, e.now))
  {
    hide CheckTrial;
  }

  /** The server's grant alone is enough, whatever the state was. */
  lemma GrantLicenses(cfg: Config, w: World, e: Event)
    requires Granted(cfg, w, e)
    ensures Step(cfg, w, e).state == Licensed
  {
    hide CheckTrial;
  }

  // ---------------------------------------------------------------- a revoke

  /** A stored lease, if any, that is good from `floor` on no longer, or never was. */
  ghost predicate Spent(cfg: Config, lease: Option<Lease>, floor: int) {
    lease.Some? ==> !Grants(cfg, lease.value, floor)
  }

  /** Neither state nor cache nor store holds a license that is good at `floor` or later. */
  ghost predicate Bereft(cfg: Config, w: World, floor: int) {
    w.state != Licensed && Spent(cfg, w.cache.lease, floor) && (w.disk.Some? ==> Spent(cfg, w.disk.value.lease, floor))
  }

  ghost function StoredLease(w: World): Option<Lease> {
    if w.disk.Some? then w.disk.value.lease else None
  }

  /** A lease that was in cache or store before, or came with the reply. */
  ghost predicate Known(w: World, got: LeaseField, lease: Option<Lease>) {
    lease.None? || lease == w.cache.lease || lease == StoredLease(w) || (got.HasLease? && lease == Some(got.lease))
  }

  ghost predicate AllKnown(w: World, got: LeaseField, v: World) {
    Known(w, got, v.cache.lease) && Known(w, got, StoredLease(v))
  }

  lemma VerdictLeasesAreKnown(cfg: Config, w: World, b: Body, now: i64, saves: Saves)
    requires b.Decoded?
    ensures AllKnown(w, b.lease, Accept(cfg, w, b, now, saves)) && AllKnown(w, b.lease, Rejected(cfg, w, b, now, saves))
  {
    hide WithTrial, Judge;
  }

  lemma LeasesAreKnown(cfg: Config, w: World, e: Event)
    ensures AllKnown(w, Received(w, e), Step(cfg, w, e))
  {
    if Consults(w, e) {
      VerdictLeasesAreKnown(cfg, w, ReplyOf(e.call).value.body, e.now, e.saves);
    }
    hide WithTrial, Judge, GraceOver, AnchorFails, RefreshDue, Accept, Rejected;
  }

  /** The clock does not go back from `from` on. */
  ghost predicate Forward(run: seq<Event>, from: int)
    decreases |run|
  {
    |run| > 0 ==> from <= run[0].now && Forward(run[1..], run[0].now)
  }

  ghost predicate EverLicensed(cfg: Config, w: World, run: seq<Event>)
    decreases |run|
  {
    w.state == Licensed || (|run| > 0 && EverLicensed(cfg, Step(cfg, w, run[0]), run[1..]))
  }

  ghost predicate EverGranted(cfg: Config, w: World, run: seq<Event>)
    decreases |run|
  {
    |run| > 0 && (Granted(cfg, w, run[0]) || EverGranted(cfg, Step(cfg, w, run[0]), run[1..]))
  }

  lemma StaysBereft(cfg: Config, w: World, e: Event, from: int, floor: int)
    requires Bereft(cfg, w, from) && from <= e.now && from <= floor <= e.now && !Granted(cfg, w, e)
    requires Received(w, e).HasLease? ==> !Grants(cfg, Received(w, e).lease, floor)
    ensures Bereft(cfg, Step(cfg, w, e), floor)
  {
    hide Step, Received, Granted;
    LicensedHasReason(cfg, w, e);
    LeasesAreKnown(cfg, w, e);
  }

  /** With a clock that does not go back, a client without a license gets one exactly from a grant. */
  lemma {:induction false} OnlyGrants(cfg: Config, w: World, run: seq<Event>, from: int)
    requires Bereft(cfg, w, from) && Forward(run, from)
    ensures EverLicensed(cfg, w, run) <==> EverGranted(cfg, w, run)
    decreases |run|
  {
    hide Step, Granted, Received, Grants;
    if |run| > 0 {
      if Granted(cfg, w, run[0]) {
        GrantLicenses(cfg, w, run[0]);
        assert EverLicensed(cfg, Step(cfg, w, run[0]), run[1..]);
      } else {
        NotGranted(cfg, w, run[0]);
        StaysBereft(cfg, w, run[0], from, run[0].now);
        OnlyGrants(cfg, Step(cfg, w, run[0]), run[1..], run[0].now);
      }
    }
  }

  lemma NotGranted(cfg: Config, w: World, e: Event)
    requires !Granted(cfg, w, e)
    ensures Received(w, e).HasLease? ==> !Grants(cfg, Received(w, e).lease, e.now)
  {
    hide Received, Grants;
  }

  /** The server's 422 without a usable lease, read by a call. */
  ghost predicate Revokes(w: World, e: Event) {
    Consults(w, e) && Rejects(ReplyOf(e.call).value) && !Received(w, e).HasLease?
  }

  lemma RevokeBereaves(cfg: Config, w: World, e: Event, floor: int)
    requires Revokes(w, e) && e.saves.paid
    ensures Step(cfg, w, e).state == Invalid && Bereft(cfg, Step(cfg, w, e), floor)
  {
    hide CheckTrial;
  }

  /** A revoke that reaches the store sticks, through relaunches too, exactly until the server grants a license. */
  lemma RevokeSticks(cfg: Config, w: World, e: Event, run: seq<Event>)
    requires Revokes(w, e) && e.saves.paid && Forward(run, e.now)
    ensures Step(cfg, w, e).state == Invalid
    ensures EverLicensed(cfg, Step(cfg, w, e), run) <==> EverGranted(cfg, Step(cfg, w, e), run)
  {
    RevokeBereaves(cfg, w, e, e.now);
    OnlyGrants(cfg, Step(cfg, w, e), run, e.now);
  }

  /** No clock of the run is below `floor`, and nothing received would be good at `floor`. */
  ghost predicate Barren(cfg: Config, w: World, run: seq<Event>, floor: int)
    decreases |run|
  {
    |run| > 0 ==>
      && floor <= run[0].now && !ActivatesBare(run[0].call)
      && (Received(w, run[0]).HasLease? ==> !Grants(cfg, Received(w, run[0]).lease, floor))
      && Barren(cfg, Step(cfg, w, run[0]), run[1..], floor)
  }

  lemma {:induction false} BarrenRun(cfg: Config, w: World, run: seq<Event>, floor: int)
    requires Bereft(cfg, w, floor) && Barren(cfg, w, run, floor)
    ensures !EverLicensed(cfg, w, run)
    decreases |run|
  {
    hide Step, Received, ActivatesBare;
    if |run| > 0 {
      StaysBereft(cfg, w, run[0], floor, floor);
      BarrenRun(cfg, Step(cfg, w, run[0]), run[1..], floor);
    }
  }

  /** Under a clock that moves either way, a lease must already be spent at the lowest reading. */
  lemma RevokeSticksAnyClock(cfg: Config, w: World, e: Event, run: seq<Event>, floor: int)
    requires Revokes(w, e) && e.saves.paid && Barren(cfg, Step(cfg, w, e), run, floor)
    ensures !EverLicensed(cfg, Step(cfg, w, e), run)
  {
    RevokeBereaves(cfg, w, e, floor);
    BarrenRun(cfg, Step(cfg, w, e), run, floor);
  }

  /** A revoke the store refuses is undone by the next launch of the process exactly if the stored lease still grants. */
  lemma LostRevoke(cfg: Config, w: World, e: Event, later: i64)
    requires Revokes(w, e) && !e.saves.paid
    ensures Relaunched(cfg, Step(cfg, w, e), later).state == Licensed <==> StoreGrants(cfg, w, later)
  {
    hide CheckTrial;
  }

  // ---------------------------------------------------------------- the offline bound

  ghost predicate NoVerdict(r: Reply) {
    !Rejects(r) && !Accepts(r)
  }

  /** Without a verdict from the server a launch shows Licensed exactly while lease and anchor allow. */
  lemma OfflineLaunch(cfg: Config, w: World, r: Reply, now: i64, saves: Saves)
    requires HasKey(w.cache) && NoVerdict(r)
    ensures Result(cfg, w, Event(Launch(r), now, saves)) == Resolved(Licensed) <==>
      && w.state == Licensed && !Untrusted(w.cache, now)
      && w.cache.lease.Some? && now <= w.cache.lease.value.expiresAt
      && (cfg.maxOfflineDays > 0 ==> w.cache.lastValidated > 0 && now - w.cache.lastValidated <= cfg.maxOfflineDays * DAY)
  {
  }

  /** The anchor is recorded and no older than the tenant allows. */
  ghost predicate Fresh(cfg: Config, anchor: int, now: int) {
    anchor > 0 && now - anchor <= cfg.maxOfflineDays * DAY
  }

  ghost predicate Asks(c: Call) {
    (c.Refresh? || c.Launch?) && NoVerdict(c.reply)
  }

  /** So does a refresh, with a day or more allowed: its shortcuts are shorter than any bound. */
  lemma OfflineBound(cfg: Config, w: World, e: Event)
    requires HasKey(w.cache) && cfg.maxOfflineDays >= 1 && Asks(e.call)
    ensures Result(cfg, w, e) == Resolved(Licensed) ==> Fresh(cfg, w.cache.lastValidated, e.now)
  {
  }

  /** Calls that learn nothing about the license from the server. */
  ghost predicate Cut(e: Event) {
    match e.call
    case Activate(_, r) => !Activates(r)
    case Validate(r) => NoVerdict(r)
    case Refresh(r) => NoVerdict(r)
    case Launch(r) => NoVerdict(r)
    case Deactivate(_) => false
    case StartTrial(_) => true
    case FetchConfig(_) => true
    case Relaunch => true
  }

  ghost predicate CutRun(run: seq<Event>) {
    forall i :: 0 <= i < |run| ==> Cut(run[i])
  }

  /** Store and cache agree on the anchor, and both hold a key. */
  ghost predicate Anchored(w: World, anchor: int) {
    && HasKey(w.cache) && w.cache.lastValidated == anchor
    && w.disk.Some? && HasKey(w.disk.value) && w.disk.value.lastValidated == anchor
  }

  lemma {:induction false} CutKeepsAnchor(cfg: Config, w: World, run: seq<Event>, anchor: int)
    requires Anchored(w, anchor) && CutRun(run)
    ensures Anchored(Run(cfg, w, run), anchor)
    decreases |run|
  {
    if |run| > 0 {
      assert Cut(run[0]);
      CutKeepsAnchor(cfg, Step(cfg, w, run[0]), run[1..], anchor);
    }
  }

  /** However long the client is cut off, relaunched or not, it shows Licensed only near its last contact. */
  lemma OfflineRun(cfg: Config, w: World, run: seq<Event>, e: Event, anchor: int)
    requires Anchored(w, anchor) && CutRun(run) && Asks(e.call) && cfg.maxOfflineDays >= 1
    ensures Result(cfg, Run(cfg, w, run), e) == Resolved(Licensed) ==> Fresh(cfg, anchor, e.now)
  {
    CutKeepsAnchor(cfg, w, run, anchor);
    OfflineBound(cfg, Run(cfg, w, run), e);
  }

  /** With no days configured the anchor bounds nothing. */
  lemma NoDaysNoBound(l: Lease, saves: Saves)
    requires l.expiresAt == 1000 * DAY
    ensures var cfg := Config(_ => true, 0, 0, false);
      var w := World(Licensed, EMPTY.(lease := Some(l), licenseKey := Some("K"), lastValidated := 1), None);
      Result(cfg, w, Event(Launch(NoContact), 999 * DAY, saves)) == Resolved(Licensed)
  {
  }

  // ---------------------------------------------------------------- the trial

  /** Cache and store hold the same non-zero trial start. */
  ghost predicate Stamped(w: World, t: i64) {
    t != 0 && w.cache.trialStart == Some(t) && w.disk.Some? && w.disk.value.trialStart == Some(t)
  }

  lemma VerdictKeepsStamp(cfg: Config, w: World, b: Body, now: i64, saves: Saves, t: i64)
    requires Stamped(w, t) && b.Decoded?
    ensures Stamped(Accept(cfg, w, b, now, saves), t) && Stamped(Rejected(cfg, w, b, now, saves), t)
  {
    hide WithTrial, Judge;
  }

  lemma StepKeepsStamp(cfg: Config, w: World, e: Event, t: i64)
    requires Stamped(w, t)
    ensures Stamped(Step(cfg, w, e), t)
  {
    if Consults(w, e) {
      VerdictKeepsStamp(cfg, w, ReplyOf(e.call).value.body, e.now, e.saves, t);
    }
    hide WithTrial, Judge, GraceOver, AnchorFails, RefreshDue, Accept, Rejected;
  }

  /** Once stamped and stored, the trial start never changes again, whatever the store refuses. */
  lemma {:induction false} TrialStartIsWriteOnce(cfg: Config, w: World, run: seq<Event>, t: i64)
    requires Stamped(w, t)
    ensures Stamped(Run(cfg, w, run), t)
    decreases |run|
  {
    hide Stamped, Step;
    if |run| > 0 {
      StepKeepsStamp(cfg, w, run[0], t);
      TrialStartIsWriteOnce(cfg, Step(cfg, w, run[0]), run[1..], t);
    }
  }

  /** A first stamp that reaches the store is kept unless the clock reads zero, which a relaunch takes for absent. */
  lemma StampSurvives(cfg: Config, w: World, id: string, now: i64, saves: Saves, later: i64)
    requires w.cache.trialStart.None? && (saves.trial || (saves.freeTier && w.cache.freeTierId.None?))
    ensures var s := TrialStarted(cfg, w, id, now, saves);
      && s.cache.trialStart == Some(now)
      && (Stamped(s, now) <==> now != 0)
      && Relaunched(cfg, s, later).cache.trialStart == if now != 0 then Some(now) else None
  {
  }

  /** Days left are bounded by the duration and never grow with the clock. */
  lemma DaysLeftShrink(cfg: Config, c: Cache, now: int, later: int)
    requires now <= later
    ensures 0 <= DaysLeft(cfg, c, later) <= DaysLeft(cfg, c, now)
    ensures TrialDays(cfg, c) > 0 ==> DaysLeft(cfg, c, now) <= TrialDays(cfg, c)
    ensures CheckTrial(cfg, c, now) == Elapsed ==> CheckTrial(cfg, c, later) == Elapsed
    ensures CheckTrial(cfg, c, now) == Active <==> DaysLeft(cfg, c, now) > 0
  {
  }

  /** No reply brings another trial length. */
  ghost predicate LeavesDays(c: Call) {
    AnyReply(c).Some? && AnyReply(c).value.Answer? && AnyReply(c).value.body.Decoded? ==>
      var s := AnyReply(c).value.body.settings; s.trialDays.None? || !s.verified
  }

  ghost function AnyReply(c: Call): Option<Reply> {
    if c.FetchConfig? then Some(c.reply) else ReplyOf(c)
  }

  ghost predicate SameDays(w: World, d: Option<i32>) {
    w.cache.serverTrialDays == d && w.disk.Some? && w.disk.value.serverTrialDays == d
  }

  lemma VerdictKeepsDays(cfg: Config, w: World, b: Body, now: i64, saves: Saves, d: Option<i32>)
    requires SameDays(w, d) && b.Decoded? && (b.settings.trialDays.None? || !b.settings.verified)
    ensures SameDays(Accept(cfg, w, b, now, saves), d) && SameDays(Rejected(cfg, w, b, now, saves), d)
  {
    hide WithTrial, Judge;
  }

  lemma StepKeepsDays(cfg: Config, w: World, e: Event, t: i64, d: Option<i32>)
    requires Stamped(w, t) && SameDays(w, d) && LeavesDays(e.call)
    ensures SameDays(Step(cfg, w, e), d)
  {
    if Consults(w, e) {
      VerdictKeepsDays(cfg, w, ReplyOf(e.call).value.body, e.now, e.saves, d);
    }
    hide WithTrial, Judge, GraceOver, AnchorFails, RefreshDue, Accept, Rejected;
  }

  ghost predicate AllLeaveDays(run: seq<Event>) {
    forall i :: 0 <= i < |run| ==> LeavesDays(run[i].call)
  }

  function LastNow(run: seq<Event>, from: int): int {
    if |run| == 0 then from else run[|run| - 1].now
  }

  /** A trial that has run out stays so through every later call and relaunch. */
  lemma {:induction false} ElapsedForever(cfg: Config, w: World, run: seq<Event>, from: int, t: i64, d: Option<i32>)
    requires Stamped(w, t) && SameDays(w, d) && Forward(run, from) && AllLeaveDays(run)
    requires CheckTrial(cfg, w.cache, from) == Elapsed
    ensures CheckTrial(cfg, Run(cfg, w, run).cache, LastNow(run, from)) == Elapsed
    decreases |run|
  {
    hide Step, LeavesDays, CheckTrial;
    if |run| > 0 {
      var v := Step(cfg, w, run[0]);
      StepKeepsStamp(cfg, w, run[0], t);
      StepKeepsDays(cfg, w, run[0], t, d);
      DaysLeftShrink(cfg, w.cache, from, run[0].now);
      SameTrial(cfg, w.cache, v.cache, run[0].now);
      ElapsedForever(cfg, v, run[1..], run[0].now, t, d);
    }
  }

  lemma SameTrial(cfg: Config, c: Cache, d: Cache, now: int)
    requires c.trialStart == d.trialStart && c.serverTrialDays == d.serverTrialDays
    ensures CheckTrial(cfg, c, now) == CheckTrial(cfg, d, now)
  {
  }

  // ---------------------------------------------------------------- the feature gate

  /** `hasEntitlement`. */
  predicate HasEntitlement(cfg: Config, w: World, feature: string, now: int) {
    && !Untrusted(w.cache, now)
    && w.cache.lease.Some?
    && var l := w.cache.lease.value;
       cfg.trusted(l) && !LeaseExpired(l, now) && l.status != "expired" && feature in l.entitlements
  }

  /** The states a paid license resolves to. */
  predicate Paid(s: State) {
    s == Licensed || s == Limited
  }

  /** The gate opens a paid feature while `state()` reports no paid license. */
  ghost predicate Split(cfg: Config, w: World, feature: string, now: int) {
    HasEntitlement(cfg, w, feature, now) && !Paid(Reported(w, now))
  }

  /** Some clock from `from` on shows gate and state at odds if nothing else is called. */
  ghost predicate SplitsFrom(cfg: Config, w: World, feature: string, from: int) {
    exists now :: from <= now && Split(cfg, w, feature, now)
  }

  /** The lease opens the gate at some clock from `from` on: not expired yet, and in time for its anchor. */
  ghost predicate Opens(cfg: Config, lease: Option<Lease>, anchor: int, feature: string, from: int) {
    && lease.Some?
    && var l := lease.value;
       && cfg.trusted(l) && l.status != "expired" && feature in l.entitlements
       && from <= l.expiresAt + SKEW
       && (anchor == 0 || anchor - TOLERANCE <= l.expiresAt + SKEW)
  }

  /** What the gate would answer from the cached lease alone. */
  ghost predicate CacheOpens(cfg: Config, w: World, feature: string, from: int) {
    Opens(cfg, w.cache.lease, w.cache.lastValidated, feature, from)
  }

  /** The cached lease opens the gate, and the state is none a paid license gives. */
  ghost predicate Ajar(cfg: Config, w: World, feature: string, from: int) {
    !Paid(w.state) && CacheOpens(cfg, w, feature, from)
  }

  lemma SplitsExactly(cfg: Config, w: World, feature: string, from: int)
    ensures SplitsFrom(cfg, w, feature, from) <==> Ajar(cfg, w, feature, from)
  {
    if Ajar(cfg, w, feature, from) {
      var anchor := w.cache.lastValidated;
      var now := if anchor != 0 && anchor - TOLERANCE > from then anchor - TOLERANCE else from;
      assert Split(cfg, w, feature, now);
    }
  }

  /** The received lease replaces the cached one if it is trusted, and speaks for neither otherwise. */
  ghost predicate LeaseParts(cfg: Config, w: World, l: Lease, feature: string, now: int) {
    if cfg.trusted(l) then Opens(cfg, Some(l), now, feature, now) && l.status != "active" && l.status != "fallback"
    else CacheOpens(cfg, w, feature, now)
  }

  /** What is stored opens the gate, but is too long without contact or has another status. */
  ghost predicate StoreParts(cfg: Config, w: World, feature: string, now: int) {
    && w.disk.Some?
    && var c := Reloaded(w.disk.value);
       && Opens(cfg, c.lease, c.lastValidated, feature, now)
       && (|| (cfg.maxOfflineDays > 0 && AnchorFails(cfg, c.lastValidated, now))
           || (c.lease.value.status != "active" && c.lease.value.status != "fallback"))
  }

  /** A launch or a due refresh that learns nothing: the grace bound is applied. */
  ghost predicate AppliesGrace(w: World, e: Event) {
    && HasKey(w.cache) && (e.call.Launch? || (e.call.Refresh? && RefreshDue(w.cache, e.now)))
    && NoVerdict(e.call.reply)
  }

  /** The call parts gate and state: readable from the call and what it finds. */
  ghost predicate Parts(cfg: Config, w: World, e: Event, feature: string) {
    if e.call.Relaunch? then StoreParts(cfg, w, feature, e.now)
    else if e.call.Deactivate? || Revokes(w, e) || ActivatesBare(e.call) then false
    else if Received(w, e).HasLease? then LeaseParts(cfg, w, Received(w, e).lease, feature, e.now)
    else
      && CacheOpens(cfg, w, feature, e.now)
      && (!Paid(w.state) || (AppliesGrace(w, e) && w.state == Licensed && GraceOver(cfg, w.cache, e.now)))
  }

  lemma VerdictParts(cfg: Config, w: World, b: Body, now: i64, saves: Saves, feature: string)
    requires b.Decoded?
    ensures Ajar(cfg, Accept(cfg, w, b, now, saves), feature, now) <==>
      if b.lease.HasLease? then LeaseParts(cfg, w, b.lease.lease, feature, now) else Ajar(cfg, w, feature, now)
    ensures Ajar(cfg, Rejected(cfg, w, b, now, saves), feature, now) <==>
      b.lease.HasLease? && LeaseParts(cfg, w, b.lease.lease, feature, now)
  {
    hide CheckTrial;
  }

  lemma ActivateParts(cfg: Config, w: World, e: Event, feature: string)
    requires e.call.Activate?
    ensures Ajar(cfg, Step(cfg, w, e), feature, e.now) <==> Parts(cfg, w, e, feature)
  {
    hide CheckTrial, RefreshDue, GraceOver;
  }

  lemma RelaunchParts(cfg: Config, w: World, e: Event, feature: string)
    requires e.call.Relaunch?
    ensures Ajar(cfg, Step(cfg, w, e), feature, e.now) <==> Parts(cfg, w, e, feature)
  {
    hide CheckTrial, RefreshDue, GraceOver;
  }

  /** Every call leaves gate and state at odds exactly if its guard says so. */
  lemma PartsExactly(cfg: Config, w: World, e: Event, feature: string)
    ensures SplitsFrom(cfg, Step(cfg, w, e), feature, e.now) <==> Parts(cfg, w, e, feature)
  {
    SplitsExactly(cfg, Step(cfg, w, e), feature, e.now);
    if e.call.Activate? {
      ActivateParts(cfg, w, e, feature);
    } else if e.call.Relaunch? {
      RelaunchParts(cfg, w, e, feature);
    } else {
      if Consults(w, e) {
        VerdictParts(cfg, w, ReplyOf(e.call).value.body, e.now, e.saves, feature);
      }
      hide CheckTrial, RefreshDue, SplitsFrom, GraceOver, Accept, Rejected, LeaseParts, Relaunched, Activated, Opens;
    }
  }

  /** At no point of the run, from its clock on, are gate and state at odds. */
  ghost predicate InStep(cfg: Config, w: World, run: seq<Event>, feature: string, from: int)
    decreases |run|
  {
    !SplitsFrom(cfg, w, feature, from)
    && (|run| > 0 ==> InStep(cfg, Step(cfg, w, run[0]), run[1..], feature, run[0].now))
  }

  ghost predicate NeverParts(cfg: Config, w: World, run: seq<Event>, feature: string)
    decreases |run|
  {
    |run| > 0 ==> !Parts(cfg, w, run[0], feature) && NeverParts(cfg, Step(cfg, w, run[0]), run[1..], feature)
  }

  /** A run keeps gate and state together exactly if they are at its start and no call parts them. */
  lemma {:induction false} GateKeepsStep(cfg: Config, w: World, run: seq<Event>, feature: string, from: int)
    ensures InStep(cfg, w, run, feature, from) <==> !SplitsFrom(cfg, w, feature, from) && NeverParts(cfg, w, run, feature)
    decreases |run|
  {
    hide Step, SplitsFrom, Parts;
    if |run| > 0 {
      PartsExactly(cfg, w, run[0], feature);
      GateKeepsStep(cfg, Step(cfg, w, run[0]), run[1..], feature, run[0].now);
    }
  }

  /** Under an open gate a launch or due refresh without a verdict loses Licensed exactly when grace is over. */
  lemma GateOutlivesGrace(cfg: Config, w: World, e: Event, feature: string)
    requires AppliesGrace(w, e) && w.state == Licensed && HasEntitlement(cfg, w, feature, e.now)
    ensures Split(cfg, Step(cfg, w, e), feature, e.now) <==> GraceOver(cfg, w.cache, e.now)
    ensures Reported(Step(cfg, w, e), e.now) == if GraceOver(cfg, w.cache, e.now) then Expired else Licensed
  {
    hide CheckTrial;
  }
}
