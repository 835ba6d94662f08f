/**
 * What a change of state does to those who listen (include/keylight/client.hpp:1030-1075,
 * 2628-2643, 2806-2889): which state is current, who is subscribed, and that all of them are told.
 */
module Listeners {
  import opened Collections
  import opened States
  import opened Delivery

  // ---------------------------------------------------------------- which state is current

  /** The state set last in a run, if any was. */
  ghost function LastSet(run: seq<Action>, before: State): (s: State) {
    if |run| == 0 then before
    else if run[|run| - 1].SetState? then run[|run| - 1].s
    else LastSet(run[..|run| - 1], before)
  }

  ghost function LastMove(run: seq<Action>, before: bool): (u: bool) {
    if |run| == 0 then before
    else if run[|run| - 1].Move? then run[|run| - 1].untrusted
    else LastMove(run[..|run| - 1], before)
  }

  lemma {:induction false} LastFirst(a: Action, rest: seq<Action>, s: State, u: bool)
    ensures LastSet([a] + rest, s) == LastSet(rest, if a.SetState? then a.s else s)
    ensures LastMove([a] + rest, u) == LastMove(rest, if a.Move? then a.untrusted else u)
    decreases |rest|
  {
    var n := |rest|;
    if n == 0 {
      assert [a] + rest == [a] && [a][..0] == [];
    } else {
      assert ([a] + rest)[..n] == [a] + rest[..n - 1] && ([a] + rest)[n] == rest[n - 1];
      LastFirst(a, rest[..n - 1], s, u);
    }
  }

  lemma StepSets(c: Channel, a: Action)
    requires Enabled(c, a)
    ensures Step(c, a).raw == if a.SetState? then a.s else c.raw
    ensures Step(c, a).untrusted == if a.Move? then a.untrusted else c.untrusted
  {
  }

  /** In every run state() is the state set last, and Invalid while the clock's last verdict is against it. */
  lemma {:induction false} StateIsLastSet(c: Channel, run: seq<Action>)
    requires Legal(c, run)
    ensures End(c, run).raw == LastSet(run, c.raw) && End(c, run).untrusted == LastMove(run, c.untrusted)
    ensures Reported(End(c, run)) == if LastMove(run, c.untrusted) then Invalid else LastSet(run, c.raw)
    decreases |run|
  {
    hide Step, LastSet, LastMove;
    if |run| > 0 {
      StepSets(c, run[0]);
      StateIsLastSet(Step(c, run[0]), run[1..]);
      LastFirst(run[0], run[1..], c.raw, c.untrusted);
      assert run == [run[0]] + run[1..];
    } else {
      NoneLast(run, c.raw, c.untrusted);
    }
  }

  lemma NoneLast(run: seq<Action>, s: State, u: bool)
    requires run == []
    ensures LastSet(run, s) == s && LastMove(run, u) == u
  {
  }

  // ---------------------------------------------------------------- everybody is told

  ghost predicate NoPoll(s: seq<Frame>) {
    forall d :: 0 <= d < |s| ==> !s[d].Polling?
  }

  /** Without a critical section ahead, a thread's own steps queue nothing and subscribe nobody. */
  lemma OwnStepQueuesNothing(c: Channel, a: Action, t: nat)
    requires OwnStep(a, t) && Enabled(c, a) && NoPoll(Stack(c.stacks, t))
    ensures var d := Step(c, a);
      d.history == c.history && d.listeners == c.listeners && d.last == c.last && NoPoll(Stack(d.stacks, t))
  {
    assert Busy(c.stacks, t) ==> !Top(c.stacks, t).Polling?;
  }

  lemma {:induction false} OwnRunQueuesNothing(c: Channel, run: seq<Action>, t: nat)
    requires Legal(c, run) && (forall k :: 0 <= k < |run| ==> OwnStep(run[k], t)) && NoPoll(Stack(c.stacks, t))
    ensures var d := End(c, run); d.history == c.history && d.listeners == c.listeners && d.last == c.last
    decreases |run|
  {
    hide Step, Enabled, NoPoll, OwnStep;
    if |run| > 0 {
      assert OwnStep(run[0], t);
      OwnStepQueuesNothing(c, run[0], t);
      OwnRunQueuesNothing(Step(c, run[0]), run[1..], t);
    }
  }

  /** Setting a state from outside and entering the critical section, while nobody else is inside. */
  lemma SetThenSection(c: Channel, t: nat, s: State)
    requires Inv(c) && Quiet(c)
    ensures Enabled(c, SetState(t, s)) && Enabled(Step(c, SetState(t, s)), Section(t))
    ensures var d := Step(Step(c, SetState(t, s)), Section(t));
      var shown := if c.untrusted then Invalid else s;
      && Inv(d) && d.raw == s && d.untrusted == c.untrusted && !d.moved && d.listeners == c.listeners
      && d.last == shown && d.history == c.history + (if shown == c.last then [] else [shown])
      && NoPoll(Stack(d.stacks, t)) && (forall u :: u != t ==> !Busy(d.stacks, u))
      && SameRounds(c, d)
  {
    var b := Step(c, SetState(t, s));
    assert !Busy(c.stacks, t);
    assert Stack(b.stacks, t) == [Polling];
    forall u | u != t
      ensures !Busy(b.stacks, u)
    {
      assert !Busy(c.stacks, u);
    }
    StepKeeps(c, SetState(t, s));
    StepKeeps(b, Section(t));
    hide Inv;
    SectionAlone(b, t);
    AloneSection(c, b, t);
  }

  /** Rounds and log are those of before. */
  ghost predicate SameRounds(c: Channel, d: Channel) {
    d.rounds == c.rounds && d.log == c.log
  }

  lemma AloneSection(c: Channel, b: Channel, t: nat)
    requires Enabled(b, Section(t)) && Stack(b.stacks, t) == [Polling]
    requires b.listeners == c.listeners && b.history == c.history && b.last == c.last && b.rounds == c.rounds && b.log == c.log
    ensures var d := Step(b, Section(t));
      && d.listeners == c.listeners && d.last == Reported(b) && SameRounds(c, d)
      && d.history == c.history + (if Reported(b) == c.last then [] else [Reported(b)])
      && NoPoll(Stack(d.stacks, t))
  {
    assert c.history + [] == c.history;
  }

  /**
   * From any quiet moment a thread that sets a state leaves a quiet moment behind by its own steps
   * alone: state() is that state, or Invalid under an untrusted clock; the history has grown by it
   * exactly if it differs from the last event; and every subscribed listener was called with
   * exactly what was added.
   */
  lemma SetStateTells(c: Channel, t: nat, s: State) returns (run: seq<Action>)
    requires Inv(c) && Quiet(c)
    ensures Legal(c, [SetState(t, s), Section(t)] + run) && forall k :: 0 <= k < |run| ==> OwnStep(run[k], t)
    ensures var d := End(c, [SetState(t, s), Section(t)] + run);
      var shown := if c.untrusted then Invalid else s;
      && Inv(d) && Quiet(d) && Reported(d) == shown && d.last == shown && d.listeners == c.listeners
      && d.history == c.history + (if shown == c.last then [] else [shown])
      && forall id :: id in c.listeners ==> Received(d.log, id) == Received(c.log, id) + d.history[|c.history|..]
  {
    var d := Step(Step(c, SetState(t, s)), Section(t));
    SetThenSection(c, t, s);
    hide Step, Enabled, Inv, Legal, End, Quiet, Reported, Received, NoPoll, OwnStep;
    run := ThreadComesOut(d, t);
    OwnRunKeeps(d, run, t);
    OwnRunQueuesNothing(d, run, t);
    RunKeeps(d, run);
    TwoFirst(c, SetState(t, s), Section(t), run);
    var e := End(d, run);
    QuietAgain(e, t);
    ShownState(e, s, c.untrusted);
    forall id | id in c.listeners
      ensures Received(e.log, id) == Received(c.log, id) + e.history[|c.history|..]
    {
      HeardAll(c, d, e, run, t, id);
    }
  }

  lemma ShownState(e: Channel, s: State, u: bool)
    requires e.raw == s && e.untrusted == u
    ensures Reported(e) == if u then Invalid else s
  {
  }

  lemma OwnIsNoUnsubscribe(run: seq<Action>, t: nat, id: nat)
    requires forall k :: 0 <= k < |run| ==> OwnStep(run[k], t)
    ensures Unsubscribe(id) !in run
  {
  }

  /** Nobody being inside, every listener is included from here on. */
  lemma IncludedNow(c: Channel, d: Channel, t: nat, id: nat)
    requires id in d.listeners && NoCalls(d)
    ensures Included(d, |d.rounds|, id)
  {
  }

  ghost predicate NoCalls(d: Channel) {
    forall u, k :: 0 <= k < |Stack(d.stacks, u)| ==> !Stack(d.stacks, u)[k].Calling?
  }

  lemma NoneCalls(d: Channel, t: nat)
    requires (forall u :: u != t ==> !Busy(d.stacks, u)) && |Stack(d.stacks, t)| <= 1
    requires Busy(d.stacks, t) ==> Top(d.stacks, t).Fetching?
    ensures NoCalls(d)
  {
    forall u, k | 0 <= k < |Stack(d.stacks, u)|
      ensures !Stack(d.stacks, u)[k].Calling?
    {
      assert Busy(d.stacks, u);
    }
  }

  lemma HeardAll(c: Channel, d: Channel, e: Channel, run: seq<Action>, t: nat, id: nat)
    requires Inv(c) && Quiet(c) && Inv(d) && Legal(d, run) && e == End(d, run) && Inv(e) && Quiet(e)
    requires forall k :: 0 <= k < |run| ==> OwnStep(run[k], t)
    requires id in d.listeners && SameRounds(c, d) && (forall u :: u != t ==> !Busy(d.stacks, u))
    requires |Stack(d.stacks, t)| <= 1 && (Busy(d.stacks, t) ==> Top(d.stacks, t).Fetching?)
    ensures |c.history| <= |e.history| && Received(e.log, id) == Received(c.log, id) + e.history[|c.history|..]
  {
    OwnIsNoUnsubscribe(run, t, id);
    NoneCalls(d, t);
    IncludedNow(c, d, t, id);
    hide *;
    RunKeepsIncluded(d, run, |d.rounds|, id);
    HeardSince(c, d, e, id);
  }

  lemma HeardSince(c: Channel, d: Channel, e: Channel, id: nat)
    requires Inv(c) && Quiet(c) && Inv(e) && Quiet(e) && SameRounds(c, d)
    requires Included(e, |d.rounds|, id) && |e.rounds| >= |d.rounds| && e.rounds[..|d.rounds|] == d.rounds
    ensures |c.history| <= |e.history| && Received(e.log, id) == Received(c.log, id) + e.history[|c.history|..]
  {
    hide Inv, Quiet, Received, LogOf, FramesInclude;
    RoundsOf(e);
    QuietMeans(c);
    QuietMeans(e);
    ReceivedAll(e.rounds, |d.rounds|, id);
    assert |Delivered(c.rounds)| == |c.rounds|;
  }

  // ---------------------------------------------------------------- who is subscribed

  ghost function Subscriptions(run: seq<Action>): (n: nat) {
    if |run| == 0 then 0 else Subscriptions(run[..|run| - 1]) + if run[|run| - 1].Subscribe? then 1 else 0
  }

  lemma {:induction false} SubscriptionsFirst(a: Action, rest: seq<Action>)
    ensures Subscriptions([a] + rest) == (if a.Subscribe? then 1 else 0) + Subscriptions(rest)
    decreases |rest|
  {
    var n := |rest|;
    if n == 0 {
      assert [a] + rest == [a] && [a][..0] == [];
      assert Subscriptions([]) == 0;
    } else {
      assert ([a] + rest)[..n] == [a] + rest[..n - 1] && ([a] + rest)[n] == rest[n - 1];
      SubscriptionsFirst(a, rest[..n - 1]);
    }
  }

  /** `id` was subscribed before the run, or is given out by the subscription at `k - 1`, and not taken back after that. */
  ghost predicate SubscribedAt(c: Channel, run: seq<Action>, id: nat, k: nat) {
    && k <= |run| && Unsubscribe(id) !in run[k..]
    && if k == 0 then id in c.listeners else run[k - 1].Subscribe? && id == c.nextId + Subscriptions(run[..k])
  }

  lemma StepSubscribes(c: Channel, a: Action, id: nat)
    requires Enabled(c, a)
    ensures var d := Step(c, a);
      && d.nextId == c.nextId + (if a.Subscribe? then 1 else 0)
      && (id in d.listeners <==> (id in c.listeners && a != Unsubscribe(id)) || (a.Subscribe? && id == c.nextId + 1))
  {
    if a.Unsubscribe? {
      WithoutMembers(c.listeners, a.id, id);
    }
  }

  lemma ShiftSubscribed(c: Channel, d: Channel, run: seq<Action>, id: nat, k: nat)
    requires |run| > 0 && k < |run| && Enabled(c, run[0]) && d == Step(c, run[0])
    ensures SubscribedAt(c, run, id, k + 1) <==>
      if k == 0 then Unsubscribe(id) !in run[1..] && run[0].Subscribe? && id == c.nextId + 1
      else SubscribedAt(d, run[1..], id, k)
  {
    StepSubscribes(c, run[0], id);
    hide Step, Enabled;
    assert run[1..][k..] == run[k + 1..];
    assert run[..k + 1] == [run[0]] + run[1..][..k];
    SubscriptionsFirst(run[0], run[1..][..k]);
    if k == 0 {
      assert run[1..][..0] == [];
      assert Subscriptions([]) == 0;
    }
  }

  /** The listeners after a run: those subscribed before or in it and not unsubscribed since, under numbers never given twice. */
  lemma {:induction false} ListenersAre(c: Channel, run: seq<Action>, id: nat)
    requires Legal(c, run)
    ensures id in End(c, run).listeners <==> exists k: nat :: SubscribedAt(c, run, id, k)
    ensures End(c, run).nextId == c.nextId + Subscriptions(run)
    decreases |run|
  {
    if |run| == 0 {
      assert SubscribedAt(c, run, id, 0) <==> id in c.listeners;
    } else {
      var d := Step(c, run[0]);
      ListenersAre(d, run[1..], id);
      StepSubscribes(c, run[0], id);
      SubscriptionsFirst(run[0], run[1..]);
      assert run == [run[0]] + run[1..];
      hide Step, Enabled, Subscriptions;
      FirstSubscribed(c, d, run, id);
    }
  }

  lemma FirstSubscribed(c: Channel, d: Channel, run: seq<Action>, id: nat)
    requires |run| > 0 && Enabled(c, run[0]) && d == Step(c, run[0])
    ensures (exists k: nat :: SubscribedAt(c, run, id, k)) <==> exists k: nat :: SubscribedAt(d, run[1..], id, k)
  {
    StepSubscribes(c, run[0], id);
    hide Step, Enabled, Subscriptions;
    assert run[0..] == run == [run[0]] + run[1..] && run[1..][0..] == run[1..];
    if k: nat :| SubscribedAt(d, run[1..], id, k) {
      if k > 0 {
        ShiftSubscribed(c, d, run, id, k);
        assert SubscribedAt(c, run, id, k + 1);
      } else if id in c.listeners && run[0] != Unsubscribe(id) {
        assert SubscribedAt(c, run, id, 0);
      } else {
        ShiftSubscribed(c, d, run, id, 0);
        assert SubscribedAt(c, run, id, 1);
      }
    }
    if j: nat :| SubscribedAt(c, run, id, j) {
      if j <= 1 {
        if j == 1 {
          ShiftSubscribed(c, d, run, id, 0);
        }
        assert SubscribedAt(d, run[1..], id, 0);
      } else {
        ShiftSubscribed(c, d, run, id, j - 1);
        assert SubscribedAt(d, run[1..], id, j - 1);
      }
    }
  }

  // ---------------------------------------------------------------- who is not

  ghost predicate FramesExclude(m: Stacks, id: nat) {
    forall t, d :: 0 <= d < |Stack(m, t)| && Stack(m, t)[d].Calling? ==> id !in Stack(m, t)[d].cbs
  }

  /** `id` is not subscribed, will not be given out again, and no copy in progress holds it. */
  ghost predicate Excluded(c: Channel, id: nat) {
    id !in c.listeners && id <= c.nextId && FramesExclude(c.stacks, id)
  }

  lemma FramesExcludeTop(m: Stacks, t: nat, f: Frame, id: nat)
    requires FramesExclude(m, id) && (f.Calling? ==> id !in f.cbs)
    ensures FramesExclude(Pushed(m, t, f), id)
    ensures Busy(m, t) ==> FramesExclude(Replaced(m, t, f), id) && FramesExclude(Popped(m, t), id)
    ensures Busy(m, t) && Top(m, t).Calling? ==> id !in Top(m, t).cbs
  {
    var n := Pushed(m, t, f);
    assert forall u, k :: 0 <= k < |Stack(m, u)| ==> Stack(n, u)[k] == Stack(m, u)[k];
    if Busy(m, t) {
      assert Stack(m, t)[|Stack(m, t)| - 1] == Top(m, t);
      var top := |Stack(m, t)| - 1;
      var r, p := Replaced(m, t, f), Popped(m, t);
      assert forall u, k :: 0 <= k < |Stack(m, u)| && (u != t || k < top) ==> Stack(r, u)[k] == Stack(m, u)[k];
      assert forall u, k :: 0 <= k < |Stack(p, u)| ==> Stack(p, u)[k] == Stack(m, u)[k];
    }
  }

  lemma StepKeepsExcluded(c: Channel, a: Action, id: nat)
    requires Excluded(c, id) && Enabled(c, a)
    ensures Excluded(Step(c, a), id) && Received(Step(c, a).log, id) == Received(c.log, id)
  {
    hide FramesExclude, Pushed, Popped, Replaced;
    match a
    case SetState(t, _) => FramesExcludeTop(c.stacks, t, Polling, id);
    case Poll(t) => FramesExcludeTop(c.stacks, t, Polling, id);
    case Section(t) => FramesExcludeTop(c.stacks, t, Fetching, id);
    case Take(t) => FramesExcludeTop(c.stacks, t, if c.pending == [] then Fetching else Copying(c.pending[0]), id);
    case Copy(t) => FramesExcludeTop(c.stacks, t, Calling(Top(c.stacks, t).ev, c.listeners, 0), id);
    case Call(t) =>
      var f := Top(c.stacks, t);
      FramesExcludeTop(c.stacks, t, Fetching, id);
      FramesExcludeTop(c.stacks, t, f.(next := f.next + 1), id);
      assert (c.log + [Receipt(f.cbs[f.next], f.ev)])[..|c.log|] == c.log;
    case Finish(t) => FramesExcludeTop(c.stacks, t, Fetching, id);
    case Unsubscribe(x) => WithoutMembers(c.listeners, x, id);
    case _ =>
  }

  /** A listener that unsubscribed at a quiet moment is never called again, whatever happens. */
  lemma {:induction false} ExcludedHearsNothing(c: Channel, run: seq<Action>, id: nat)
    requires Excluded(c, id) && Legal(c, run)
    ensures Received(End(c, run).log, id) == Received(c.log, id)
    decreases |run|
  {
    hide Step, Enabled, Excluded, Received;
    if |run| > 0 {
      StepKeepsExcluded(c, run[0], id);
      ExcludedHearsNothing(Step(c, run[0]), run[1..], id);
    }
  }

  lemma UnsubscribedIsExcluded(c: Channel, id: nat)
    requires Inv(c) && Quiet(c) && id <= c.nextId
    ensures Excluded(Step(c, Unsubscribe(id)), id)
  {
    WithoutMembers(c.listeners, id, id);
    forall t
      ensures |Stack(c.stacks, t)| == 0
    {
      assert !Busy(c.stacks, t);
    }
  }
}
