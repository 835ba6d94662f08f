/** The client object (include/keylight/client.hpp), whose methods update it step by step. */
module Client {
  import opened Collections
  import opened Limbs
  import opened Json
  import opened Leases
  import opened Blob
  import opened States
  import opened Licensing

  class Client {
    const cfg: Config
    var state: State
    var cache: Cache
    var store: Option<Cache>

    ghost function Snapshot(): World
      reads this
    {
      World(state, cache, store)
    }

    /** A new process over what the store holds: `refresh_state_from_store_`. */
    constructor (c: Config, stored: Option<Cache>, now: i64)
      ensures cfg == c && Snapshot() == Relaunched(c, World(Invalid, EMPTY, stored), now)
    {
      cfg, store := c, stored;
      cache := EMPTY;
      state := Invalid;
      new;
      if store.Some? {
        cache := Reloaded(store.value);
        var paid := Invalid;
        if cache.lease.Some? {
          paid := Judge(cfg, cache.lease.value, now);
        }
        if paid != Invalid && cfg.maxOfflineDays > 0 {
          var anchor := cache.lastValidated;
          var maxAge := cfg.maxOfflineDays * 86400;
          if anchor == 0 || RolledBack(anchor, now) || now - anchor > maxAge {
            paid := Expired;
          }
        }
        state := ResolveWithTrial(paid, now);
      }
    }

    // -------------------------------------------------------------- helpers

    function ResolveWithTrial(paid: State, now: i64): State
      reads this
    {
      WithTrial(cfg, cache, paid, now)
    }

    /** `report_`. */
    function Report(s: State, now: i64): Outcome
      reads this
    {
      if Untrusted(cache, now) then Resolved(Invalid) else Resolved(s)
    }

    method SaveCache(takes: bool) returns (ok: bool)
      modifies this`store
      ensures ok == takes && Snapshot() == Written(old(Snapshot()), takes)
    {
      ok := takes;
      if takes {
        store := Some(cache);
      }
    }

    /** `persist_`: absent arguments keep what is cached. */
    method Persist(lease: Option<Lease>, expires: Option<i64>, iid: Option<string>, key: Option<string>, takes: bool)
      modifies this`cache, this`store
      ensures cache == old(cache).(lease := Or(lease, old(cache.lease)), expiresAt := Or(expires, old(cache.expiresAt)),
                                   instanceId := Or(iid, old(cache.instanceId)), licenseKey := Or(key, old(cache.licenseKey)))
      ensures store == if takes then Some(cache) else old(store)
    {
      if lease.Some? {
        cache := cache.(lease := lease);
      }
      if expires.Some? {
        cache := cache.(expiresAt := expires);
      }
      if iid.Some? {
        cache := cache.(instanceId := iid);
      }
      if key.Some? {
        cache := cache.(licenseKey := key);
      }
      var _ := SaveCache(takes);
    }

    method SaveLastValidated(t: i64, takes: bool)
      modifies this`cache, this`store
      ensures cache == old(cache).(lastValidated := t)
      ensures store == if takes then Some(cache) else old(store)
    {
      cache := cache.(lastValidated := t);
      var _ := SaveCache(takes);
    }

    method ApplySettings(s: Settings, takes: bool) returns (absorbed: bool)
      modifies this`cache, this`store
      ensures Snapshot() == Absorb(old(Snapshot()), s, takes)
    {
      if s.trialDays.None? && s.freeTier.None? {
        return false;
      }
      if !s.verified {
        return false;
      }
      if s.trialDays.Some? {
        cache := cache.(serverTrialDays := s.trialDays);
      }
      if s.freeTier.Some? {
        cache := cache.(serverFreeTier := s.freeTier);
      }
      var _ := SaveCache(takes);
      absorbed := true;
    }

    /** A lease that verifies is persisted and the contact recorded. */
    method KeepTrusted(l: Lease, expires: i64, now: i64, saves: Saves)
      modifies this`cache, this`store
      ensures Snapshot() == Keep(cfg, old(Snapshot()), l, expires, now, saves)
    {
      if cfg.trusted(l) {
        var e: Option<i64> := None;
        if expires != 0 {
          e := Some(expires);
        }
        var iid := cache.instanceId;
        Persist(Some(l), e, iid, None, saves.paid);
        SaveLastValidated(now, saves.contact);
      }
    }

    /** The part of a 200 reply to a validation that `validate` and the background refresh share. */
    method ApplyValidation(b: Body, now: i64, saves: Saves)
      requires b.Decoded?
      modifies this
      ensures Snapshot() == Accept(cfg, old(Snapshot()), b, now, saves)
    {
      var _ := ApplySettings(b.settings, saves.settings);
      var resolved := state;
      if b.lease.HasLease? {
        KeepTrusted(b.lease.lease, b.expires, now, saves);
        resolved := Judge(cfg, b.lease.lease, now);
      }
      state := ResolveWithTrial(resolved, now);
    }

    /** `handle_validate_rejection_`; none when the body cannot be read. */
    method HandleRejection(b: Body, now: i64, saves: Saves) returns (r: Option<State>)
      modifies this
      ensures b.Undecodable? ==> r.None? && Snapshot() == old(Snapshot())
      ensures b.Decoded? ==> Snapshot() == Rejected(cfg, old(Snapshot()), b, now, saves) && r == Some(state)
    {
      if b.Undecodable? {
        return None;
      }
      if b.lease.HasLease? {
        KeepTrusted(b.lease.lease, b.expires, now, saves);
        state := ResolveWithTrial(Judge(cfg, b.lease.lease, now), now);
        return Some(state);
      }
      cache := cache.(lease := None);
      var _ := SaveCache(saves.paid);
      state := Invalid;
      return Some(Invalid);
    }

    /** `apply_offline_grace_`. */
    method ApplyOfflineGrace(now: i64, anchor: i64) returns (s: State)
      requires anchor == cache.lastValidated
      modifies this`state
      ensures Snapshot() == Graced(cfg, old(Snapshot()), now) && s == state
    {
      var leaseExpired := cache.lease.None? || now > cache.lease.value.expiresAt;
      if leaseExpired {
        if state == Licensed {
          state := Expired;
          return Expired;
        }
        return state;
      }
      if cfg.maxOfflineDays <= 0 {
        return state;
      }
      if anchor > 0 {
        var offline := now - anchor;
        var grace := cfg.maxOfflineDays * 86400;
        if offline <= grace {
          return state;
        }
      }
      if state == Licensed {
        state := Expired;
        return Expired;
      }
      return state;
    }

    /** `validate_and_reconcile_`. */
    method ValidateAndReconcile(reply: Reply, now: i64, saves: Saves) returns (s: State)
      modifies this
      ensures Snapshot() == Reconciled(cfg, old(Snapshot()), reply, now, saves) && s == state
    {
      var anchor := cache.lastValidated;
      if reply.NoContact? {
        s := ApplyOfflineGrace(now, anchor);
        return;
      }
      if reply.status != 200 {
        if reply.status == 422 {
          var rejected := HandleRejection(reply.body, now, saves);
          if rejected.Some? {
            return rejected.value;
          }
        }
        s := ApplyOfflineGrace(now, anchor);
        return;
      }
      if reply.body.Undecodable? {
        s := ApplyOfflineGrace(now, anchor);
        return;
      }
      ApplyValidation(reply.body, now, saves);
      s := state;
    }

    // -------------------------------------------------------------- calls

    method Activate(key: string, reply: Reply, now: i64, saves: Saves) returns (r: Outcome)
      modifies this
      ensures Snapshot() == Activated(cfg, old(Snapshot()), key, reply, now, saves)
      ensures r == ActivateOutcome(cfg, old(Snapshot()), key, reply, now, saves)
    {
      if reply.NoContact? {
        return Failed;
      }
      if reply.status != 200 || reply.body.Undecodable? {
        return Failed;
      }
      var b := reply.body;
      if !b.activated {
        return Report(state, now);
      }
      if b.lease.BadLease? {
        return Failed;
      }
      var expires: Option<i64> := if b.expires != 0 then Some(b.expires) else None;
      var iid: Option<string> := if b.instanceId != "" then Some(b.instanceId) else None;
      var next := if b.lease.HasLease? then Judge(cfg, b.lease.lease, now) else state;
      if b.lease.HasLease? && cfg.trusted(b.lease.lease) {
        Persist(Some(b.lease.lease), expires, iid, Some(key), saves.paid);
        SaveLastValidated(now, saves.contact);
      } else if b.lease.NoLease? {
        Persist(None, expires, iid, Some(key), saves.paid);
        next := Licensed;
      }
      next := ResolveWithTrial(next, now);
      state := next;
      r := Report(next, now);
    }

    method Validate(reply: Reply, now: i64, saves: Saves) returns (r: Outcome)
      modifies this
      ensures Snapshot() == Validated(cfg, old(Snapshot()), reply, now, saves)
      ensures r == Resolved(Reported(Snapshot(), now))
    {
      if reply.NoContact? {
        return Report(state, now);
      }
      if reply.status != 200 {
        if reply.status == 422 {
          var rejected := HandleRejection(reply.body, now, saves);
          if rejected.Some? {
            return Report(rejected.value, now);
          }
        }
        return Report(state, now);
      }
      if reply.body.Undecodable? {
        return Report(state, now);
      }
      ApplyValidation(reply.body, now, saves);
      r := Report(state, now);
    }

    function ResolveCurrentState(now: i64): State
      reads this
    {
      var hasPaidMaterial := cache.lease.Some? || (cache.licenseKey.Some? && cache.licenseKey.value != "");
      if hasPaidMaterial then state else ResolveWithTrial(Invalid, now)
    }

    method CheckOnLaunch(reply: Reply, now: i64, saves: Saves) returns (r: Outcome)
      modifies this
      ensures Snapshot() == Launched(cfg, old(Snapshot()), reply, now, saves)
      ensures r == Resolved(Reported(Snapshot(), now))
    {
      if HasKey(cache) {
        var s := ValidateAndReconcile(reply, now, saves);
        return Report(s, now);
      }
      var next := ResolveCurrentState(now);
      state := next;
      r := Report(next, now);
    }

    method RefreshIfNeeded(reply: Reply, now: i64, saves: Saves) returns (r: Outcome)
      modifies this
      ensures Snapshot() == Refreshed(cfg, old(Snapshot()), reply, now, saves)
      ensures r == Resolved(Reported(Snapshot(), now))
    {
      if !HasKey(cache) {
        var next := ResolveCurrentState(now);
        state := next;
        return Report(next, now);
      }
      var anchor := cache.lastValidated;
      var hasAnchor := anchor > 0;
      if hasAnchor && now - anchor < DEBOUNCE {
        return Report(state, now);
      }
      var nearExpiry := false;
      if cache.lease.Some? {
        nearExpiry := cache.lease.value.expiresAt - now < DAY;
      }
      var doRefresh := !hasAnchor || now - anchor >= STALE || nearExpiry;
      if !doRefresh {
        return Report(state, now);
      }
      var s := ValidateAndReconcile(reply, now, saves);
      r := Report(s, now);
    }

    method Deactivate(reply: Reply, now: i64, saves: Saves) returns (r: Outcome)
      modifies this
      ensures Snapshot() == Deactivated(cfg, old(Snapshot()), now, saves)
      ensures r == DeactivateOutcome(old(Snapshot()), reply, saves)
    {
      var serverError := false;
      if cache.instanceId.Some? && cache.instanceId.value != "" {
        if reply.NoContact? {
          serverError := true;
        } else if reply.status != 200 {
          serverError := true;
        }
      }
      cache := cache.(lease := None, expiresAt := None, instanceId := None, licenseKey := None, lastValidated := 0);
      if cache.trialStart.Some? {
        var ok := SaveCache(saves.paid);
        if !ok {
          return Failed;
        }
      } else {
        if !saves.paid {
          return Failed;
        }
        store := None;
      }
      state := ResolveWithTrial(Invalid, now);
      r := if serverError then Failed else Done;
    }

    /** `freeTierInstanceId`: minted once, forgotten again if it cannot be stored. */
    method FreeTierInstanceId(id: string, takes: bool)
      modifies this`cache, this`store
      ensures cache == old(cache).(freeTierId := if old(cache.freeTierId.Some?) then old(cache.freeTierId)
                                                 else if takes then Some(id) else None)
      ensures store == if old(cache.freeTierId.Some?) || !takes then old(store) else Some(cache)
    {
      if cache.freeTierId.Some? {
        return;
      }
      cache := cache.(freeTierId := Some(id));
      var ok := SaveCache(takes);
      if !ok {
        cache := cache.(freeTierId := None);
      }
    }

    method BeginTrial(id: string, now: i64, saves: Saves) returns (r: Outcome)
      modifies this
      ensures Snapshot() == TrialStarted(cfg, old(Snapshot()), id, now, saves)
      ensures r == Resolved(Reported(Snapshot(), now))
    {
      var started := false;
      if cache.trialStart.None? {
        cache := cache.(trialStart := Some(now));
        started := true;
      }
      if started {
        var _ := SaveCache(saves.trial);
      }
      FreeTierInstanceId(id, saves.freeTier);
      var next := ResolveCurrentState(now);
      state := next;
      r := Report(next, now);
    }

    method FetchConfig(reply: Reply, now: i64, saves: Saves) returns (r: Outcome)
      modifies this
      ensures Snapshot() == Configured(cfg, old(Snapshot()), reply, now, saves)
      ensures r == if ConfigArrives(reply) then Done else Failed
    {
      if reply.NoContact? {
        return Failed;
      }
      if reply.status != 200 || reply.body.Undecodable? {
        return Failed;
      }
      if !reply.body.settings.verified {
        return Failed;
      }
      var _ := ApplySettings(reply.body.settings, saves.settings);
      state := ResolveCurrentState(now);
      r := Done;
    }
  }
}
