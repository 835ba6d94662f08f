/**
 * What the application is told after each call, and what the client then knows and has stored,
 * field by field (include/keylight/client.hpp:341-581, 746-811, 970-1019, 1864-2200, 2401-2535).
 */
module Answers {
  import opened Collections
  import opened Limbs
  import opened Json
  import opened Leases
  import opened Blob
  import opened States
  import opened Licensing

  // ---------------------------------------------------------------- nothing paid

  /** The trial length in force: the server's, if it ever sent one. */
  ghost function Days(cfg: Config, c: Cache): (d: int) {
    if c.serverTrialDays.Some? then c.serverTrialDays.value else cfg.trialDays
  }

  ghost predicate Free(cfg: Config, c: Cache) {
    if c.serverFreeTier.Some? then c.serverFreeTier.value else cfg.freeTier
  }

  /** A trial was started less than its length ago. */
  ghost predicate TrialRuns(cfg: Config, c: Cache, now: int) {
    Days(cfg, c) > 0 && c.trialStart.Some? && now - c.trialStart.value < 86400 * Days(cfg, c)
  }

  ghost predicate TrialOver(cfg: Config, c: Cache, now: int) {
    Days(cfg, c) > 0 && c.trialStart.Some? && now - c.trialStart.value >= 86400 * Days(cfg, c)
  }

  /** What a client without a paid license shows: trial, then free tier, then an elapsed trial. */
  ghost function Unpaid(cfg: Config, c: Cache, now: int): (s: State) {
    if TrialRuns(cfg, c, now) then Trial
    else if Free(cfg, c) then FreeTier
    else if TrialOver(cfg, c, now) then Expired
    else Invalid
  }

  /** Whole days left, as the application counts them. */
  lemma TrialIsTime(cfg: Config, c: Cache, now: int)
    ensures CheckTrial(cfg, c, now) == Active <==> TrialRuns(cfg, c, now)
    ensures CheckTrial(cfg, c, now) == Elapsed <==> TrialOver(cfg, c, now)
    ensures TrialRuns(cfg, c, now) ==>
      var e := if now < c.trialStart.value then 0 else now - c.trialStart.value;
      86400 * (Days(cfg, c) - DaysLeft(cfg, c, now)) <= e < 86400 * (Days(cfg, c) - DaysLeft(cfg, c, now) + 1)
    ensures !TrialRuns(cfg, c, now) ==> DaysLeft(cfg, c, now) == 0
  {
  }

  lemma UnpaidShown(cfg: Config, c: Cache, now: int)
    ensures WithTrial(cfg, c, Invalid, now) == Unpaid(cfg, c, now)
  {
    TrialIsTime(cfg, c, now);
    hide CheckTrial, TrialRuns, TrialOver;
  }

  // ---------------------------------------------------------------- the state after a call

  /** What a trusted lease stands for. */
  ghost function Standing(l: Lease, now: int): (s: State) {
    if l.status == "active" && now <= l.expiresAt + 300 then Licensed
    else if l.status == "fallback" then Limited
    else Expired
  }

  /** The anchor of a stored lease is absent, ahead of the clock, or too old. */
  ghost predicate Unanchored(cfg: Config, anchor: int, now: int) {
    anchor == 0 || anchor - now > 3600 || now - anchor > cfg.maxOfflineDays * 86400
  }

  /** The stored lease, if a new process would trust it. */
  ghost predicate StoredTrusted(cfg: Config, w: World) {
    && w.disk.Some? && w.disk.value.lease.Some? && cfg.trusted(w.disk.value.lease.value)
    && w.disk.value.lease.value.kid != "" && w.disk.value.lease.value.status != ""
  }

  ghost function StoredStanding(cfg: Config, w: World, now: int): (s: State)
    requires StoredTrusted(cfg, w)
  {
    if cfg.maxOfflineDays > 0 && Unanchored(cfg, w.disk.value.lastValidated, now) then Expired
    else Standing(w.disk.value.lease.value, now)
  }

  /** Neither a lease nor a license key is cached. */
  ghost predicate Bare(c: Cache) {
    c.lease.None? && (c.licenseKey.None? || c.licenseKey.value == "")
  }

  /** The call settles that nothing paid is at hand. */
  ghost predicate Unlicenses(cfg: Config, w: World, e: Event) {
    match e.call
    case Activate(_, _) => Received(w, e).HasLease? && !cfg.trusted(Received(w, e).lease)
    case Validate(r) => Distrusts(cfg, w, e) || Overlooks(w, e)
    case Refresh(r) => Bare(w.cache) || Distrusts(cfg, w, e) || Overlooks(w, e)
    case Launch(r) => Bare(w.cache) || Distrusts(cfg, w, e) || Overlooks(w, e)
    case Deactivate(_) => e.saves.paid
    case StartTrial(_) => Bare(w.cache)
    case FetchConfig(r) => Bare(w.cache) && r.Answer? && r.status == 200 && r.body.Decoded? && r.body.settings.verified
    case Relaunch => w.disk.Some? && !StoredTrusted(cfg, w)
  }

  /** The reply carries a lease that does not verify. */
  ghost predicate Distrusts(cfg: Config, w: World, e: Event) {
    Received(w, e).HasLease? && !cfg.trusted(Received(w, e).lease)
  }

  /** A 200 reply without a usable lease finds the state Invalid. */
  ghost predicate Overlooks(w: World, e: Event) {
    Consults(w, e) && Accepts(ReplyOf(e.call).value) && !Received(w, e).HasLease? && w.state == Invalid
  }

  /** A launch, or a refresh that is due, learns nothing, and lease or anchor no longer carry the license. */
  ghost predicate LosesGrace(cfg: Config, w: World, e: Event) {
    && AppliesGrace(w, e) && w.state == Licensed
    && (|| w.cache.lease.None? || e.now > w.cache.lease.value.expiresAt
        || (cfg.maxOfflineDays > 0
            && (w.cache.lastValidated <= 0 || e.now - w.cache.lastValidated > cfg.maxOfflineDays * 86400)))
  }

  /** The state after any call. */
  ghost function StateAfter(cfg: Config, w: World, e: Event): (s: State) {
    if Received(w, e).HasLease? && cfg.trusted(Received(w, e).lease) then Standing(Received(w, e).lease, e.now)
    else if ActivatesBare(e.call) then Licensed
    else if Revokes(w, e) then Invalid
    else if Unlicenses(cfg, w, e) then Unpaid(cfg, Step(cfg, w, e).cache, e.now)
    else if e.call.Relaunch? then if w.disk.None? then Invalid else StoredStanding(cfg, w, e.now)
    else if LosesGrace(cfg, w, e) then Expired
    else w.state
  }

  /** Paid, trial and free tier resolved from a lease. */
  lemma LeaseShown(cfg: Config, c: Cache, l: Lease, now: int)
    ensures WithTrial(cfg, c, Judge(cfg, l, now), now) == if cfg.trusted(l) then Standing(l, now) else Unpaid(cfg, c, now)
  {
    UnpaidShown(cfg, c, now);
    hide Unpaid, CheckTrial;
  }

  lemma VerdictState(cfg: Config, w: World, b: Body, now: i64, saves: Saves)
    requires b.Decoded?
    ensures var v := Accept(cfg, w, b, now, saves);
      v.state == if b.lease.HasLease? then
                   if cfg.trusted(b.lease.lease) then Standing(b.lease.lease, now) else Unpaid(cfg, v.cache, now)
                 else if w.state == Invalid then Unpaid(cfg, v.cache, now) else w.state
    ensures var v := Rejected(cfg, w, b, now, saves);
      v.state == if b.lease.HasLease? then
                   if cfg.trusted(b.lease.lease) then Standing(b.lease.lease, now) else Unpaid(cfg, v.cache, now)
                 else Invalid
  {
    hide Judge, WithTrial, Unpaid, Standing;
    var x, y := Accept(cfg, w, b, now, saves), Rejected(cfg, w, b, now, saves);
    if b.lease.HasLease? {
      LeaseShown(cfg, x.cache, b.lease.lease, now);
      LeaseShown(cfg, y.cache, b.lease.lease, now);
    } else {
      UnpaidShown(cfg, x.cache, now);
      PaidStays(cfg, x.cache, w.state, now);
    }
  }

  lemma PaidStays(cfg: Config, c: Cache, s: State, now: int)
    ensures s != Invalid ==> WithTrial(cfg, c, s, now) == s
  {
    hide CheckTrial;
  }

  lemma ActivateState(cfg: Config, w: World, e: Event)
    requires e.call.Activate?
    ensures Step(cfg, w, e).state == StateAfter(cfg, w, e)
  {
    hide Judge, WithTrial, Unpaid, Standing;
    if Received(w, e).HasLease? {
      LeaseShown(cfg, Step(cfg, w, e).cache, Received(w, e).lease, e.now);
    }
  }

  lemma RelaunchState(cfg: Config, w: World, e: Event)
    requires e.call.Relaunch?
    ensures Step(cfg, w, e).state == StateAfter(cfg, w, e)
  {
    hide CheckTrial, Unpaid;
    UnpaidShown(cfg, Step(cfg, w, e).cache, e.now);
  }

  /** Every call leaves exactly that state. */
  lemma StateIsAfter(cfg: Config, w: World, e: Event)
    ensures Step(cfg, w, e).state == StateAfter(cfg, w, e)
  {
    if e.call.Activate? {
      ActivateState(cfg, w, e);
    } else if e.call.Relaunch? {
      RelaunchState(cfg, w, e);
    } else {
      UnpaidShown(cfg, Step(cfg, w, e).cache, e.now);
      if Consults(w, e) {
        VerdictState(cfg, w, ReplyOf(e.call).value.body, e.now, e.saves);
      }
      hide Judge, WithTrial, Unpaid, Standing, Accept, Rejected, Activated, Relaunched, StoredStanding, StoredTrusted, RefreshDue;
    }
  }

  // ---------------------------------------------------------------- where each state comes from

  /** A call turns to Trial exactly if it settles that nothing paid is at hand while days are left. */
  lemma TrialHasReason(cfg: Config, w: World, e: Event)
    requires w.state != Trial || e.call.Relaunch?
    ensures Step(cfg, w, e).state == Trial <==>
      Unlicenses(cfg, w, e) && TrialRuns(cfg, Step(cfg, w, e).cache, e.now)
  {
    StateIsAfter(cfg, w, e);
    UnlicensedMeans(cfg, w, e);
    hide Step, TrialRuns, TrialOver, Received, Revokes, LosesGrace, ActivatesBare, Unlicenses;
  }

  /** Settling that nothing paid is at hand excludes every paid verdict. */
  lemma UnlicensedMeans(cfg: Config, w: World, e: Event)
    ensures Unlicenses(cfg, w, e) ==>
      !(Received(w, e).HasLease? && cfg.trusted(Received(w, e).lease)) && !ActivatesBare(e.call) && !Revokes(w, e)
  {
  }

  /** A call turns to Limited exactly if it receives a trusted fallback lease, or a new process finds one in the store. */
  lemma LimitedHasReason(cfg: Config, w: World, e: Event)
    requires w.state != Limited || e.call.Relaunch?
    ensures Step(cfg, w, e).state == Limited <==>
      || (Received(w, e).HasLease? && cfg.trusted(Received(w, e).lease) && Received(w, e).lease.status == "fallback")
      || (&& e.call.Relaunch? && StoredTrusted(cfg, w) && w.disk.value.lease.value.status == "fallback"
          && (cfg.maxOfflineDays > 0 ==> !Unanchored(cfg, w.disk.value.lastValidated, e.now)))
  {
    StateIsAfter(cfg, w, e);
    hide Step, TrialRuns, TrialOver, LosesGrace, Unanchored, RefreshDue;
  }

  /** A trusted lease that is active and late, or of any status but active and fallback, gives Expired. */
  lemma LateIsExpired(cfg: Config, w: World, e: Event)
    requires Received(w, e).HasLease? && cfg.trusted(Received(w, e).lease)
    ensures var l := Received(w, e).lease;
      Step(cfg, w, e).state == Expired <==>
        (l.status == "active" && e.now > l.expiresAt + 300) || (l.status != "active" && l.status != "fallback")
  {
    StateIsAfter(cfg, w, e);
    hide Step, Received;
  }

  // ---------------------------------------------------------------- what is answered

  /** `state()`: nothing but Invalid while the clock is more than an hour behind the last contact. */
  lemma ReportedSpells(w: World, now: int)
    ensures Reported(w, now) ==
      if w.cache.lastValidated != 0 && w.cache.lastValidated - now > 3600 then Invalid else w.state
  {
  }

  /** Every call that answers a state answers `state()` as it is then; the others say whether they failed. */
  lemma AnswerAfter(cfg: Config, w: World, e: Event)
    ensures var shown := Resolved(Reported(Step(cfg, w, e), e.now));
      Result(cfg, w, e) == match e.call
        case Activate(_, r) =>
          if r.NoContact? || r.status != 200 || r.body.Undecodable? || (r.body.activated && r.body.lease.BadLease?) then Failed
          else shown
        case Deactivate(r) =>
          if !e.saves.paid then Failed
          else if w.cache.instanceId.None? || w.cache.instanceId.value == "" || (r.Answer? && r.status == 200) then Done
          else Failed
        case FetchConfig(r) =>
          if r.Answer? && r.status == 200 && r.body.Decoded? && r.body.settings.verified then Done else Failed
        case Relaunch => Done
        case _ => shown
  {
    hide Activated, Validated, Refreshed, Launched, Deactivated, TrialStarted, Configured, Relaunched, Reported;
  }

  /** When a refresh asks: never within five minutes of the last contact, else once it is six hours old or the lease near its end. */
  lemma RefreshSpells(c: Cache, now: int)
    ensures RefreshDue(c, now) <==>
      if c.lastValidated <= 0 then true
      else if now - c.lastValidated < 300 then false
      else now - c.lastValidated >= 21600 || (c.lease.Some? && c.lease.value.expiresAt - now < 86400)
  {
  }

  /** The call puts the question of validity to the server: a validation always, a launch with a key, a refresh with a key that is due. */
  ghost predicate Asks(w: World, e: Event) {
    || e.call.Validate?
    || (&& (e.call.Launch? || e.call.Refresh?) && w.cache.licenseKey.Some? && w.cache.licenseKey.value != ""
        && (e.call.Refresh? ==>
            var age := e.now - w.cache.lastValidated;
            w.cache.lastValidated <= 0 || (age >= 300 && (age >= 21600 || (w.cache.lease.Some? && w.cache.lease.value.expiresAt - e.now < 86400)))))
  }

  /** The reply can be read and came with this status. */
  ghost predicate Came(e: Event, status: int) {
    var r := ReplyOf(e.call);
    r.Some? && r.value.Answer? && r.value.status == status && r.value.body.Decoded?
  }

  /** Which replies count: 200 and 422 to a question of validity, 200 to an activation, and none of them unless it can be read. */
  lemma RepliesSpelled(w: World, e: Event)
    ensures Received(w, e).HasLease? <==>
      && ((Asks(w, e) && (Came(e, 200) || Came(e, 422))) || (e.call.Activate? && Came(e, 200) && e.call.reply.body.activated))
      && ReplyOf(e.call).value.body.lease.HasLease?
    ensures Received(w, e).HasLease? ==> Received(w, e) == ReplyOf(e.call).value.body.lease
    ensures Revokes(w, e) <==> Asks(w, e) && Came(e, 422) && !ReplyOf(e.call).value.body.lease.HasLease?
    ensures Overlooks(w, e) <==> Asks(w, e) && Came(e, 200) && !ReplyOf(e.call).value.body.lease.HasLease? && w.state == Invalid
    ensures ActivatesBare(e.call) <==>
      e.call.Activate? && Came(e, 200) && e.call.reply.body.activated && e.call.reply.body.lease.NoLease?
    ensures AppliesGrace(w, e) <==> Asks(w, e) && !e.call.Validate? && !Came(e, 200) && !Came(e, 422)
  {
    RefreshSpells(w.cache, e.now);
  }

  // ---------------------------------------------------------------- an elapsed trial

  ghost predicate ShowsTrial(cfg: Config, w: World, run: seq<Event>)
    decreases |run|
  {
    |run| > 0 && (Result(cfg, w, run[0]) == Resolved(Trial) || ShowsTrial(cfg, Step(cfg, w, run[0]), run[1..]))
  }

  /** A call within an elapsed trial does not turn to Trial. */
  lemma ElapsedStep(cfg: Config, w: World, e: Event, from: int, t: i64, d: Option<i32>)
    requires Stamped(w, t) && SameDays(w, d) && from <= e.now && LeavesDays(e.call)
    requires CheckTrial(cfg, w.cache, from) == Elapsed && w.state != Trial
    ensures Step(cfg, w, e).state != Trial && Result(cfg, w, e) != Resolved(Trial)
    ensures CheckTrial(cfg, Step(cfg, w, e).cache, e.now) == Elapsed
  {
    hide LeavesDays, TrialRuns, CheckTrial, Unlicenses;
    var v := Step(cfg, w, e);
    StepKeepsStamp(cfg, w, e, t);
    StepKeepsDays(cfg, w, e, t, d);
    DaysLeftShrink(cfg, w.cache, from, e.now);
    hide Step;
    SameTrial(cfg, w.cache, v.cache, e.now);
    TrialIsTime(cfg, v.cache, e.now);
    TrialHasReason(cfg, w, e);
    AnswerAfter(cfg, w, e);
    ReportedSpells(v, e.now);
    hide Result;
  }

  /** Once a trial has elapsed and is not shown any more, no later call of any run answers Trial. */
  lemma {:induction false} NoTrialAgain(cfg: Config, w: World, run: seq<Event>, from: int, t: i64, d: Option<i32>)
    requires Stamped(w, t) && SameDays(w, d) && Forward(run, from) && AllLeaveDays(run)
    requires CheckTrial(cfg, w.cache, from) == Elapsed && w.state != Trial
    ensures !ShowsTrial(cfg, w, run)
    decreases |run|
  {
    hide Step, LeavesDays, CheckTrial, Result;
    if |run| > 0 {
      StepKeepsStamp(cfg, w, run[0], t);
      StepKeepsDays(cfg, w, run[0], t, d);
      ElapsedStep(cfg, w, run[0], from, t, d);
      NoTrialAgain(cfg, Step(cfg, w, run[0]), run[1..], run[0].now, t, d);
    }
  }

  /** And the first launch or refresh of a client without a license ends the showing. */
  lemma ElapsedEnds(cfg: Config, w: World, e: Event)
    requires Bare(w.cache) && (e.call.Launch? || e.call.Refresh?) && CheckTrial(cfg, w.cache, e.now) == Elapsed
    ensures Step(cfg, w, e).state == if Free(cfg, w.cache) then FreeTier else Expired
  {
    TrialIsTime(cfg, w.cache, e.now);
    StateIsAfter(cfg, w, e);
  }

  // ---------------------------------------------------------------- what the client knows afterwards

  /** The call keeps what an activation sends along: a trusted lease, or none at all. */
  ghost predicate Takes(cfg: Config, w: World, e: Event) {
    e.call.Activate? && (ActivatesBare(e.call) || (Received(w, e).HasLease? && cfg.trusted(Received(w, e).lease)))
  }

  ghost predicate ReceivesTrusted(cfg: Config, w: World, e: Event) {
    Received(w, e).HasLease? && cfg.trusted(Received(w, e).lease)
  }

  ghost predicate Forgets(e: Event) {
    e.call.Deactivate?
  }

  /** The lease: the last trusted one received, until a revoke or a deactivation. */
  ghost function LeaseAfter(cfg: Config, w: World, e: Event): (l: Option<Lease>) {
    if ReceivesTrusted(cfg, w, e) then Some(Received(w, e).lease)
    else if Revokes(w, e) || Forgets(e) then None
    else if e.call.Relaunch? then
      if w.disk.Some? && w.disk.value.lease.Some? && w.disk.value.lease.value.kid != "" && w.disk.value.lease.value.status != ""
      then w.disk.value.lease else None
    else w.cache.lease
  }

  /** The anchor: the clock when the last trusted lease was received. */
  ghost function AnchorAfter(cfg: Config, w: World, e: Event): (t: int) {
    if ReceivesTrusted(cfg, w, e) then e.now
    else if Forgets(e) then 0
    else if e.call.Relaunch? then if w.disk.Some? then w.disk.value.lastValidated else 0
    else w.cache.lastValidated
  }

  /** The license key: the one last activated with. */
  ghost function KeyAfter(cfg: Config, w: World, e: Event): (k: Option<string>) {
    if Takes(cfg, w, e) then Some(e.call.key)
    else if Forgets(e) then None
    else if e.call.Relaunch? then if w.disk.Some? && w.disk.value.licenseKey != Some("") then w.disk.value.licenseKey else None
    else w.cache.licenseKey
  }

  ghost function InstanceAfter(cfg: Config, w: World, e: Event): (i: Option<string>) {
    if Takes(cfg, w, e) && e.call.reply.body.instanceId != "" then Some(e.call.reply.body.instanceId)
    else if Forgets(e) then None
    else if e.call.Relaunch? then if w.disk.Some? && w.disk.value.instanceId != Some("") then w.disk.value.instanceId else None
    else w.cache.instanceId
  }

  ghost function ExpiryAfter(cfg: Config, w: World, e: Event): (t: Option<i64>) {
    if (ReceivesTrusted(cfg, w, e) || ActivatesBare(e.call)) && ReplyOf(e.call).value.body.expires != 0
    then Some(ReplyOf(e.call).value.body.expires)
    else if Forgets(e) then None
    else if e.call.Relaunch? then if w.disk.Some? && w.disk.value.expiresAt != Some(0) then w.disk.value.expiresAt else None
    else w.cache.expiresAt
  }

  ghost function StampAfter(w: World, e: Event): (t: Option<i64>) {
    if e.call.StartTrial? && w.cache.trialStart.None? then Some(e.now)
    else if e.call.Relaunch? then if w.disk.Some? && w.disk.value.trialStart != Some(0) then w.disk.value.trialStart else None
    else w.cache.trialStart
  }

  ghost function FreeTierIdAfter(w: World, e: Event): (i: Option<string>) {
    if e.call.StartTrial? && w.cache.freeTierId.None? && e.saves.freeTier then Some(e.call.id)
    else if e.call.Relaunch? then if w.disk.Some? && w.disk.value.freeTierId != Some("") then w.disk.value.freeTierId else None
    else w.cache.freeTierId
  }

  /** The settings a call reads, from a 200 reply and only if they verify. */
  ghost function SettingsRead(w: World, e: Event): (s: Settings) {
    if && (e.call.FetchConfig? || Consults(w, e)) && AnyReply(e.call).value.Answer? && AnyReply(e.call).value.status == 200
       && AnyReply(e.call).value.body.Decoded? && AnyReply(e.call).value.body.settings.verified
    then AnyReply(e.call).value.body.settings
    else Settings(None, None, false)
  }

  ghost function DaysAfter(w: World, e: Event): (d: Option<i32>) {
    if SettingsRead(w, e).trialDays.Some? then SettingsRead(w, e).trialDays
    else if e.call.Relaunch? then if w.disk.Some? then w.disk.value.serverTrialDays else None
    else w.cache.serverTrialDays
  }

  ghost function TierAfter(w: World, e: Event): (b: Option<bool>) {
    if SettingsRead(w, e).freeTier.Some? then SettingsRead(w, e).freeTier
    else if e.call.Relaunch? then if w.disk.Some? then w.disk.value.serverFreeTier else None
    else w.cache.serverFreeTier
  }

  /** The cached fields after a call, one by one. */
  ghost predicate KnowsAfter(cfg: Config, w: World, e: Event, c: Cache) {
    && c.lease == LeaseAfter(cfg, w, e) && c.lastValidated == AnchorAfter(cfg, w, e)
    && c.licenseKey == KeyAfter(cfg, w, e) && c.instanceId == InstanceAfter(cfg, w, e) && c.expiresAt == ExpiryAfter(cfg, w, e)
    && c.trialStart == StampAfter(w, e) && c.freeTierId == FreeTierIdAfter(w, e)
    && c.serverTrialDays == DaysAfter(w, e) && c.serverFreeTier == TierAfter(w, e)
    && (!e.call.Relaunch? ==>
        c.hardwareId == w.cache.hardwareId && c.keylessState == w.cache.keylessState && c.keylessPing == w.cache.keylessPing)
  }

  /** The cache after a verdict. */
  lemma VerdictCache(cfg: Config, w: World, b: Body, now: i64, saves: Saves)
    requires b.Decoded?
    ensures var good := b.lease.HasLease? && cfg.trusted(b.lease.lease);
      var c := w.cache.(lease := if good then Some(b.lease.lease) else w.cache.lease,
                        lastValidated := if good then now else w.cache.lastValidated,
                        expiresAt := if good && b.expires != 0 then Some(b.expires) else w.cache.expiresAt);
      var days, tier := b.settings.trialDays, b.settings.freeTier;
      && Rejected(cfg, w, b, now, saves).cache == (if b.lease.HasLease? then c else w.cache.(lease := None))
      && Accept(cfg, w, b, now, saves).cache == c.(
           serverTrialDays := if b.settings.verified && days.Some? then days else w.cache.serverTrialDays,
           serverFreeTier := if b.settings.verified && tier.Some? then tier else w.cache.serverFreeTier)
  {
    hide WithTrial, Judge;
  }

  lemma ConsultKnows(cfg: Config, w: World, e: Event)
    requires Consults(w, e)
    ensures KnowsAfter(cfg, w, e, Step(cfg, w, e).cache)
  {
    VerdictCache(cfg, w, ReplyOf(e.call).value.body, e.now, e.saves);
    hide GraceOver, RefreshDue, Accept, Rejected;
  }

  lemma ActivateKnows(cfg: Config, w: World, e: Event)
    requires e.call.Activate?
    ensures KnowsAfter(cfg, w, e, Step(cfg, w, e).cache)
  {
    hide WithTrial, Judge;
  }

  lemma RelaunchKnows(cfg: Config, w: World, e: Event)
    requires e.call.Relaunch?
    ensures KnowsAfter(cfg, w, e, Step(cfg, w, e).cache)
  {
    hide WithTrial, Judge, AnchorFails;
  }

  /** Every call leaves exactly those. */
  lemma CallKnows(cfg: Config, w: World, e: Event)
    ensures KnowsAfter(cfg, w, e, Step(cfg, w, e).cache)
  {
    if Consults(w, e) {
      ConsultKnows(cfg, w, e);
    } else if e.call.Activate? {
      ActivateKnows(cfg, w, e);
    } else if e.call.Relaunch? {
      RelaunchKnows(cfg, w, e);
    } else {
      hide WithTrial, Judge, GraceOver, RefreshDue, Accept, Rejected, Activated, Relaunched;
    }
  }

  // ---------------------------------------------------------------- what is stored afterwards

  ghost predicate AllTaken(s: Saves) {
    s.settings && s.paid && s.contact && s.trial && s.freeTier
  }

  ghost predicate NoneTaken(s: Saves) {
    !s.settings && !s.paid && !s.contact && !s.trial && !s.freeTier
  }

  /** A new process would know what this one knows; only what a deactivation without a trial leaves is not stored. */
  ghost predicate Mirrored(w: World) {
    if w.disk.Some? then Reloaded(w.disk.value) == Reloaded(w.cache)
    else Bare(w.cache) && w.cache.lastValidated == 0 && w.cache.trialStart.None?
  }

  lemma KeepMirrors(cfg: Config, w: World, l: Lease, expires: i64, now: i64, saves: Saves)
    requires Mirrored(w)
    ensures AllTaken(saves) ==> Mirrored(Keep(cfg, w, l, expires, now, saves))
    ensures NoneTaken(saves) ==> Keep(cfg, w, l, expires, now, saves).disk == w.disk
  {
    hide Reloaded;
  }

  lemma AbsorbMirrors(w: World, s: Settings, ok: bool)
    requires Mirrored(w)
    ensures ok ==> Mirrored(Absorb(w, s, ok))
    ensures !ok ==> Absorb(w, s, ok).disk == w.disk && (w.disk.None? ==> Mirrored(Absorb(w, s, ok)))
  {
    hide Reloaded;
  }

  lemma StateMirrors(w: World, s: State)
    ensures Mirrored(w.(state := s)) <==> Mirrored(w)
  {
  }

  lemma AcceptMirrors(cfg: Config, w: World, b: Body, now: i64, saves: Saves)
    requires b.Decoded? && Mirrored(w)
    ensures AllTaken(saves) ==> Mirrored(Accept(cfg, w, b, now, saves))
    ensures NoneTaken(saves) ==> Accept(cfg, w, b, now, saves).disk == w.disk
  {
    var v := Absorb(w, b.settings, saves.settings);
    AbsorbMirrors(w, b.settings, saves.settings);
    hide Absorb, Mirrored, WithTrial, Judge, Reloaded;
    if AllTaken(saves) {
      if b.lease.HasLease? {
        KeepMirrors(cfg, v, b.lease.lease, b.expires, now, saves);
      }
      hide Keep;
      var u := if b.lease.HasLease? then Keep(cfg, v, b.lease.lease, b.expires, now, saves) else v;
      StateMirrors(u, Accept(cfg, w, b, now, saves).state);
    }
  }

  lemma RejectedMirrors(cfg: Config, w: World, b: Body, now: i64, saves: Saves)
    requires b.Decoded? && Mirrored(w)
    ensures AllTaken(saves) ==> Mirrored(Rejected(cfg, w, b, now, saves))
    ensures NoneTaken(saves) ==> Rejected(cfg, w, b, now, saves).disk == w.disk
  {
    hide WithTrial, Judge, Reloaded;
    if b.lease.HasLease? {
      KeepMirrors(cfg, w, b.lease.lease, b.expires, now, saves);
      StateMirrors(Keep(cfg, w, b.lease.lease, b.expires, now, saves), Rejected(cfg, w, b, now, saves).state);
    }
  }

  lemma ActivateMirrors(cfg: Config, w: World, e: Event)
    requires e.call.Activate? && Mirrored(w)
    ensures AllTaken(e.saves) ==> Mirrored(Step(cfg, w, e))
    ensures NoneTaken(e.saves) ==> Step(cfg, w, e).disk == w.disk
  {
    hide WithTrial, Judge, Reloaded;
  }

  lemma RelaunchMirrors(cfg: Config, w: World, e: Event)
    requires e.call.Relaunch?
    ensures Mirrored(Step(cfg, w, e)) && Step(cfg, w, e).disk == w.disk
  {
    hide WithTrial, Judge, AnchorFails;
  }

  /** A store that takes everything mirrors the client after every call, and one that takes nothing stays as it was. */
  lemma StoreMirrors(cfg: Config, w: World, e: Event)
    requires Mirrored(w)
    ensures AllTaken(e.saves) ==> Mirrored(Step(cfg, w, e))
    ensures NoneTaken(e.saves) ==> Step(cfg, w, e).disk == w.disk
  {
    if Consults(w, e) {
      AcceptMirrors(cfg, w, ReplyOf(e.call).value.body, e.now, e.saves);
      RejectedMirrors(cfg, w, ReplyOf(e.call).value.body, e.now, e.saves);
      hide Mirrored, Accept, Rejected, RefreshDue, GraceOver;
    } else if e.call.Activate? {
      ActivateMirrors(cfg, w, e);
    } else if e.call.Relaunch? {
      RelaunchMirrors(cfg, w, e);
    } else {
      hide WithTrial, Judge, GraceOver, RefreshDue, Accept, Rejected, Activated, Relaunched, Reloaded;
    }
  }

  /** So over any run of such calls a relaunch knows what the client knew, empty strings and zero times aside. */
  lemma {:induction false} RunMirrors(cfg: Config, w: World, run: seq<Event>, now: i64)
    requires Mirrored(w) && forall i :: 0 <= i < |run| ==> AllTaken(run[i].saves)
    ensures var v := Run(cfg, w, run);
      Mirrored(v) && (v.disk.Some? ==> Relaunched(cfg, v, now).cache == Reloaded(v.cache))
    decreases |run|
  {
    hide Step, AllTaken;
    if |run| > 0 {
      assert AllTaken(run[0].saves);
      StoreMirrors(cfg, w, run[0]);
      RunMirrors(cfg, Step(cfg, w, run[0]), run[1..], now);
    }
  }
}
