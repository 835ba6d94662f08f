/**
 * The background threads of the client as a transition system: the auto-validation workers,
 * retired by epoch (include/keylight/client.hpp:867-932, 2566-2618), the keyless heartbeat
 * (2680-2740), and the destructor that joins them (288-305). Any number of threads call in;
 * each critical section is one step.
 */
module Workers {
  import opened Collections

  // ---------------------------------------------------------------- state

  datatype Thread = Outside(id: nat) | Av(id: nat) | Heart(id: nat)

  /** Where a worker stands in `av_loop_`. */
  datatype Phase =
    | Checking     // at the head of the loop or waiting, about to look at the epoch
    | Refreshing   // inside refreshIfNeeded(), and so possibly inside a listener
    | Leaving      // saw another epoch
    | Done         // published `done`; nothing left but thread teardown

  datatype Worker = Worker(epoch: nat, phase: Phase)

  datatype Beat = Parked | Beaconing | Ended

  datatype Destructor =
    | NotBegun
    | StoppingHeart(caller: Thread, victim: Option<nat>)
    | HeartGone(caller: Thread)
    | JoiningAll(caller: Thread, collected: nat)
    | Returned(collected: nat)

  /** Which handle owns a worker's thread. Recorded for the proofs; no step looks at it. */
  datatype Place = Current | Retired | Reaping(caller: Thread) | Joined

  type Reapers = map<Thread, seq<nat>>

  datatype System = System(
    epoch: nat,             // av_epoch_
    current: Option<nat>,   // av_current_, when joinable
    retired: seq<nat>,      // av_retired_
    workers: seq<Worker>,   // every worker ever spawned
    reaping: Reapers,       // the Reaper of each call in progress
    heart: Option<nat>,     // kh_thread_, when joinable
    hearts: seq<Beat>,      // every heartbeat thread ever spawned
    khStop: bool,
    khShutdown: bool,
    destructor: Destructor,
    place: seq<Place>)

  datatype Action =
    | Start(thread: Thread, spawns: bool)       // startAutoValidation; the system may refuse a thread
    | Stop(thread: Thread)                      // stopAutoValidation
    | Join(thread: Thread)                      // the next join of a Reaper returns
    | Pass(worker: nat)                         // the epoch check passes
    | Leave(worker: nat)                        // the epoch check fails
    | FinishRefresh(worker: nat)
    | Publish(worker: nat)                      // done->store(true)
    | StartHeart(thread: Thread, spawns: bool)  // start_heartbeat_, from set_state_
    | Wake(heart: nat)                          // the interval passed
    | Quit(heart: nat)                          // kh_stop_ seen
    | FinishBeacon(heart: nat)
    | Destroy(thread: Thread)                   // ~Client begins: the section of stop_heartbeat_
    | JoinHeart                                 // its join returns
    | Collect                                   // the section that collects every worker
    | Return                                    // all joined

  function Reap(m: Reapers, t: Thread): (s: seq<nat>) {
    if t in m then m[t] else []
  }

  /** `t` runs application code and may call the client. */
  predicate Free(s: System, t: Thread) {
    && Reap(s.reaping, t) == []
    && match t
       case Outside(_) => s.destructor.NotBegun? || s.destructor.Returned? || s.destructor.caller != t
       case Av(w) => w < |s.workers| && s.workers[w].phase.Refreshing?
       case Heart(h) => h < |s.hearts| && s.hearts[h].Beaconing?
  }

  predicate At(s: System, w: nat, p: Phase) {
    w < |s.workers| && s.workers[w].phase == p
  }

  predicate Beats(s: System, h: nat, b: Beat) {
    h < |s.hearts| && s.hearts[h] == b
  }

  predicate IsDone(workers: seq<Worker>, w: nat) {
    w < |workers| && workers[w].phase.Done?
  }

  predicate Enabled(s: System, a: Action) {
    match a
    case Start(t, _) => Free(s, t)
    case Stop(t) => Free(s, t)
    case Join(t) => Reap(s.reaping, t) != [] && IsDone(s.workers, Reap(s.reaping, t)[0])
    case Pass(w) => At(s, w, Checking) && s.workers[w].epoch == s.epoch
    case Leave(w) => At(s, w, Checking) && s.workers[w].epoch != s.epoch
    case FinishRefresh(w) => At(s, w, Refreshing) && Reap(s.reaping, Av(w)) == []
    case Publish(w) => At(s, w, Leaving)
    case StartHeart(t, _) => Free(s, t)
    case Wake(h) => Beats(s, h, Parked) && !s.khStop
    case Quit(h) => Beats(s, h, Parked) && s.khStop
    case FinishBeacon(h) => Beats(s, h, Beaconing) && Reap(s.reaping, Heart(h)) == []
    // The listener contract bars destroying the client from one of its own threads.
    case Destroy(t) => s.destructor.NotBegun? && t.Outside? && Free(s, t)
    case JoinHeart => s.destructor.StoppingHeart? && (s.destructor.victim.Some? ==> Beats(s, s.destructor.victim.value, Ended))
    case Collect => s.destructor.HeartGone?
    case Return => s.destructor.JoiningAll? && Reap(s.reaping, s.destructor.caller) == []
  }

  // ---------------------------------------------------------------- steps

  /** `take_exited_`: the retired workers that published `done`, and the others. */
  function Exited(retired: seq<nat>, workers: seq<Worker>): (e: seq<nat>) {
    if |retired| == 0 then []
    else (if IsDone(workers, retired[0]) then [retired[0]] else []) + Exited(retired[1..], workers)
  }

  function StillRunning(retired: seq<nat>, workers: seq<Worker>): (e: seq<nat>) {
    if |retired| == 0 then []
    else (if IsDone(workers, retired[0]) then [] else [retired[0]]) + StillRunning(retired[1..], workers)
  }

  function Held(current: Option<nat>): (s: seq<nat>) {
    if current.Some? then [current.value] else []
  }

  function Mark(place: seq<Place>, s: seq<nat>, p: Place): (q: seq<Place>)
    ensures |q| == |place|
    ensures forall w :: 0 <= w < |place| ==> q[w] == if w in s then p else place[w]
  {
    seq(|place|, w requires 0 <= w < |place| => if w in s then p else place[w])
  }

  /** What start and stop have in common: finished workers move into the caller's Reaper. */
  function TakeExited(s: System, t: Thread): (r: System) {
    var exited := Exited(s.retired, s.workers);
    s.(retired := StillRunning(s.retired, s.workers),
       reaping := s.reaping[t := exited],
       place := Mark(s.place, exited, Reaping(t)))
  }

  function Spawned(s: System, spawns: bool): (r: System) {
    if s.current.Some? then s
    else if !spawns then s.(epoch := s.epoch + 1)
    else s.(epoch := s.epoch + 1, current := Some(|s.workers|),
            workers := s.workers + [Worker(s.epoch + 1, Checking)], place := s.place + [Current])
  }

  function RetiredCurrent(s: System): (r: System) {
    if s.current.None? then s
    else s.(epoch := s.epoch + 1, current := None, retired := s.retired + [s.current.value],
            place := Mark(s.place, [s.current.value], Retired))
  }

  function JoinFirst(s: System, t: Thread): (r: System)
    requires Reap(s.reaping, t) != []
  {
    var l := Reap(s.reaping, t);
    s.(reaping := s.reaping[t := l[1..]], place := Mark(s.place, l[..1], Joined))
  }

  function CollectAll(s: System, caller: Thread): (r: System) {
    var all := Held(s.current) + s.retired;
    s.(epoch := s.epoch + 1, current := None, retired := [], reaping := s.reaping[caller := all],
       place := Mark(s.place, all, Reaping(caller)), destructor := JoiningAll(caller, |s.workers|))
  }

  function WithPhase(s: System, w: nat, p: Phase): (r: System)
    requires w < |s.workers|
  {
    s.(workers := s.workers[w := s.workers[w].(phase := p)])
  }

  function HeartStarted(s: System, spawns: bool): (r: System) {
    if s.khShutdown || s.heart.Some? then s
    else if !spawns then s.(khStop := false)
    else s.(khStop := false, heart := Some(|s.hearts|), hearts := s.hearts + [Parked])
  }

  function Step(s: System, a: Action): (r: System)
    requires Enabled(s, a)
  {
    match a
    case Start(t, spawns) => Spawned(TakeExited(s, t), spawns)
    case Stop(t) => RetiredCurrent(TakeExited(s, t))
    case Join(t) => JoinFirst(s, t)
    case Pass(w) => WithPhase(s, w, Refreshing)
    case Leave(w) => WithPhase(s, w, Leaving)
    case FinishRefresh(w) => WithPhase(s, w, Checking)
    case Publish(w) => WithPhase(s, w, Done)
    case StartHeart(_, spawns) => HeartStarted(s, spawns)
    case Wake(h) => s.(hearts := s.hearts[h := Beaconing])
    case Quit(h) => s.(hearts := s.hearts[h := Ended])
    case FinishBeacon(h) => s.(hearts := s.hearts[h := Parked])
    case Destroy(t) => s.(khStop := true, khShutdown := true, heart := None, destructor := StoppingHeart(t, s.heart))
    case JoinHeart => s.(destructor := HeartGone(s.destructor.caller))
    case Collect => CollectAll(s, s.destructor.caller)
    case Return => s.(destructor := Returned(s.destructor.collected))
  }

  const INITIAL := System(0, None, [], [], map[], None, [], false, false, NotBegun, [])

  ghost predicate Legal(s: System, run: seq<Action>)
    decreases |run|
  {
    |run| > 0 ==> Enabled(s, run[0]) && Legal(Step(s, run[0]), run[1..])
  }

  ghost function End(s: System, run: seq<Action>): (r: System)
    requires Legal(s, run)
    decreases |run|
  {
    if |run| == 0 then s else End(Step(s, run[0]), run[1..])
  }

  // ---------------------------------------------------------------- the invariant

  /** `s` lists, once each, the workers owned by `p`. */
  ghost predicate Lists(place: seq<Place>, s: seq<nat>, p: Place) {
    && (forall i, j :: 0 <= i < j < |s| ==> s[i] != s[j])
    && (forall w: nat :: w in s <==> w < |place| && place[w] == p)
  }

  ghost predicate ReapersListed(place: seq<Place>, m: Reapers) {
    forall t: Thread :: Lists(place, Reap(m, t), Reaping(t))
  }

  /** Every worker is owned by exactly one handle. */
  ghost predicate Partition(n: nat, place: seq<Place>, current: Option<nat>, retired: seq<nat>, reaping: Reapers) {
    && |place| == n
    && Lists(place, Held(current), Current)
    && Lists(place, retired, Retired)
    && ReapersListed(place, reaping)
  }

  ghost predicate Owned(s: System) {
    Partition(|s.workers|, s.place, s.current, s.retired, s.reaping)
  }

  /** The current worker, and no other, carries the current epoch; only the others have left. */
  ghost predicate Epochs(epoch: nat, current: Option<nat>, workers: seq<Worker>) {
    && (forall w :: 0 <= w < |workers| ==> workers[w].epoch <= epoch)
    && (forall w: nat :: w < |workers| ==> (workers[w].epoch == epoch <==> current == Some(w)))
    && (forall v, w :: 0 <= v < w < |workers| ==> workers[v].epoch < workers[w].epoch)
    && (forall w :: 0 <= w < |workers| && (workers[w].phase.Leaving? || workers[w].phase.Done?) ==> workers[w].epoch < epoch)
  }

  /** Whoever reaps, except the destructor, reaps only finished workers. */
  ghost predicate ReapsDone(place: seq<Place>, workers: seq<Worker>, d: Destructor) {
    |place| == |workers| && forall w :: 0 <= w < |place| ==>
      (place[w].Joined? || (place[w].Reaping? && !(d.JoiningAll? && d.caller == place[w].caller)) ==> workers[w].phase.Done?)
  }

  /** A thread with a join ahead of it is inside application code. */
  ghost predicate ReapersBusy(s: System) {
    && (forall w: nat :: Reap(s.reaping, Av(w)) != [] ==> At(s, w, Refreshing))
    && (forall h: nat :: Reap(s.reaping, Heart(h)) != [] ==> Beats(s, h, Beaconing))
  }

  ghost predicate HeartLatched(s: System) {
    && (s.khShutdown <==> !s.destructor.NotBegun?)
    && (s.khShutdown ==> s.khStop && s.heart.None?)
    && (!s.destructor.NotBegun? && !s.destructor.Returned? ==> s.destructor.caller.Outside?)
    && forall h: nat :: h < |s.hearts| ==>
         s.heart == Some(h) || s.hearts[h].Ended? || (s.destructor.StoppingHeart? && s.destructor.victim == Some(h))
  }

  /** Joined, or in the Reaper of the destructor or of a call that began before it collected. */
  ghost predicate Settled(p: Place, collected: nat) {
    p.Joined? || (p.Reaping? && (p.caller.Av? ==> p.caller.id < collected))
  }

  /** What the destructor collected it has joined or still holds. */
  ghost predicate Collected(s: System) {
    && (s.destructor.StoppingHeart? || s.destructor.HeartGone? ==> Reap(s.reaping, s.destructor.caller) == [])
    && (s.destructor.JoiningAll? || s.destructor.Returned? ==>
        s.destructor.collected <= |s.place|
        && forall w :: 0 <= w < s.destructor.collected ==> Settled(s.place[w], s.destructor.collected))
  }

  ghost predicate Inv(s: System) {
    && Owned(s) && Epochs(s.epoch, s.current, s.workers) && ReapsDone(s.place, s.workers, s.destructor)
    && ReapersBusy(s) && HeartLatched(s) && Collected(s)
  }

  // ---------------------------------------------------------------- ownership

  lemma {:induction false} ExitedParts(retired: seq<nat>, workers: seq<Worker>, w: nat)
    ensures w in Exited(retired, workers) <==> w in retired && IsDone(workers, w)
    ensures w in StillRunning(retired, workers) <==> w in retired && !IsDone(workers, w)
  {
    if |retired| > 0 {
      ExitedParts(retired[1..], workers, w);
    }
  }

  lemma {:induction false} ExitedUnique(retired: seq<nat>, workers: seq<Worker>)
    requires Unique(retired)
    ensures Unique(Exited(retired, workers)) && Unique(StillRunning(retired, workers))
  {
    if |retired| > 0 {
      assert Unique(retired[1..]);
      ExitedUnique(retired[1..], workers);
      ExitedParts(retired[1..], workers, retired[0]);
    }
  }

  /** Workers marked `p` leave the list of `q`. */
  lemma ListsLose(place: seq<Place>, s: seq<nat>, p: Place, l: seq<nat>, q: Place, rest: seq<nat>)
    requires Lists(place, l, q) && q != p && Unique(rest)
    requires forall w: nat :: w in rest <==> w in l && w !in s
    ensures Lists(Mark(place, s, p), rest, q)
  {
  }

  /** Workers marked `p` join the list of `p`. */
  lemma ListsGain(place: seq<Place>, s: seq<nat>, p: Place, l: seq<nat>)
    requires Lists(place, l, p) && Unique(l + s)
    requires forall w: nat :: w in s ==> w < |place|
    ensures Lists(Mark(place, s, p), l + s, p)
  {
    assert forall w: nat :: w in l + s <==> w in l || w in s;
  }

  lemma ListsStay(place: seq<Place>, s: seq<nat>, p: Place, l: seq<nat>, q: Place)
    requires Lists(place, l, q) && q != p
    requires forall w: nat :: w in s && w < |place| ==> place[w] != q
    ensures Lists(Mark(place, s, p), l, q)
  {
    ListsLose(place, s, p, l, q, l);
  }

  /** All reapers but that of `t` keep their lists when none of their workers is marked. */
  lemma ReapersStay(place: seq<Place>, s: seq<nat>, p: Place, m: Reapers, n: Reapers, t: Thread)
    requires ReapersListed(place, m) && (p.Reaping? ==> p.caller == t)
    requires forall u: Thread :: u != t ==> Reap(n, u) == Reap(m, u)
    requires forall w: nat :: w in s && w < |place| ==> !place[w].Reaping? || place[w].caller == t
    requires Lists(Mark(place, s, p), Reap(n, t), Reaping(t))
    ensures ReapersListed(Mark(place, s, p), n)
  {
    forall u: Thread
      ensures Lists(Mark(place, s, p), Reap(n, u), Reaping(u))
    {
      if u != t {
        ListsStay(place, s, p, Reap(m, u), Reaping(u));
      }
    }
  }

  lemma ReaperListed(place: seq<Place>, m: Reapers, t: Thread)
    requires ReapersListed(place, m)
    ensures Lists(place, Reap(m, t), Reaping(t))
  {
  }

  lemma TakeExitedKeepsPartition(s: System, t: Thread)
    requires Owned(s) && Reap(s.reaping, t) == []
    ensures Owned(TakeExited(s, t))
  {
    hide ReapersListed, Held;
    var exited := Exited(s.retired, s.workers);
    forall w: nat
      ensures w in exited <==> w in s.retired && IsDone(s.workers, w)
      ensures w in StillRunning(s.retired, s.workers) <==> w in s.retired && !IsDone(s.workers, w)
    {
      ExitedParts(s.retired, s.workers, w);
    }
    ExitedUnique(s.retired, s.workers);
    ListsLose(s.place, exited, Reaping(t), s.retired, Retired, StillRunning(s.retired, s.workers));
    ListsStay(s.place, exited, Reaping(t), Held(s.current), Current);
    ReaperListed(s.place, s.reaping, t);
    ListsGain(s.place, exited, Reaping(t), []);
    assert [] + exited == exited;
    ReapersStay(s.place, exited, Reaping(t), s.reaping, TakeExited(s, t).reaping, t);
  }

  lemma SpawnedKeepsPartition(s: System, spawns: bool)
    requires Owned(s)
    ensures Owned(Spawned(s, spawns))
  {
    var r := Spawned(s, spawns);
    if s.current.None? && spawns {
      var n := |s.workers|;
      assert forall w: nat :: w < n ==> s.place[w] != Current by {
        assert forall w: nat :: w in Held(s.current) <==> w < |s.place| && s.place[w] == Current;
      }
      forall t: Thread
        ensures Lists(r.place, Reap(s.reaping, t), Reaping(t))
      {
        ReaperListed(s.place, s.reaping, t);
      }
    }
  }

  lemma RetiredKeepsPartition(s: System)
    requires Owned(s)
    ensures Owned(RetiredCurrent(s))
  {
    if s.current.Some? {
      var w := s.current.value;
      var l := [w];
      assert w in Held(s.current) && l == Held(s.current);
      hide ReapersListed, Held;
      ListsLose(s.place, l, Retired, l, Current, []);
      ListsGain(s.place, l, Retired, s.retired);
      assert forall t: Thread :: Lists(Mark(s.place, l, Retired), Reap(s.reaping, t), Reaping(t)) by {
        forall t: Thread
          ensures Lists(Mark(s.place, l, Retired), Reap(s.reaping, t), Reaping(t))
        {
          ReaperListed(s.place, s.reaping, t);
          ListsStay(s.place, l, Retired, Reap(s.reaping, t), Reaping(t));
        }
      }
      AllReapers(RetiredCurrent(s).place, s.reaping);
      assert Held(RetiredCurrent(s).current) == [] by { HeldNone(); }
    }
  }

  lemma HeldNone()
    ensures Held(None) == []
  {
  }

  lemma AllReapers(place: seq<Place>, m: Reapers)
    requires forall t: Thread :: Lists(place, Reap(m, t), Reaping(t))
    ensures ReapersListed(place, m)
  {
  }

  lemma JoinKeepsPartition(s: System, t: Thread)
    requires Owned(s) && Reap(s.reaping, t) != []
    ensures Owned(JoinFirst(s, t))
  {
    ReaperListed(s.place, s.reaping, t);
    hide ReapersListed, Held;
    var l := Reap(s.reaping, t);
    assert l == l[..1] + l[1..];
    ListsLose(s.place, l[..1], Joined, l, Reaping(t), l[1..]);
    ListsStay(s.place, l[..1], Joined, Held(s.current), Current);
    ListsStay(s.place, l[..1], Joined, s.retired, Retired);
    ReapersStay(s.place, l[..1], Joined, s.reaping, JoinFirst(s, t).reaping, t);
  }

  lemma UniqueConcat(a: seq<nat>, b: seq<nat>)
    requires Unique(a) && Unique(b) && forall w: nat :: !(w in a && w in b)
    ensures Unique(a + b)
  {
    forall i, j | 0 <= i < j < |a + b|
      ensures (a + b)[i] != (a + b)[j]
    {
      if i < |a| <= j {
        assert a[i] in a && b[j - |a|] in b;
      }
    }
  }

  lemma CollectKeepsPartition(s: System, caller: Thread)
    requires Owned(s) && Reap(s.reaping, caller) == []
    ensures Owned(CollectAll(s, caller))
  {
    ReaperListed(s.place, s.reaping, caller);
    var held := Held(s.current);
    HeldNone();
    hide ReapersListed, Held;
    var all := held + s.retired;
    assert forall w: nat :: w in all <==> w in held || w in s.retired;
    UniqueConcat(held, s.retired);
    ListsLose(s.place, all, Reaping(caller), held, Current, []);
    ListsLose(s.place, all, Reaping(caller), s.retired, Retired, []);
    ListsGain(s.place, all, Reaping(caller), []);
    assert [] + all == all;
    ReapersStay(s.place, all, Reaping(caller), s.reaping, CollectAll(s, caller).reaping, caller);
  }

  // ---------------------------------------------------------------- every step keeps the invariant

  lemma StartKeeps(s: System, t: Thread, spawns: bool)
    requires Inv(s) && Enabled(s, Start(t, spawns))
    ensures Inv(Step(s, Start(t, spawns)))
  {
    TakeExitedKeeps(s, t);
    SpawnedKeeps(TakeExited(s, t), spawns);
  }

  lemma StopKeeps(s: System, t: Thread)
    requires Inv(s) && Enabled(s, Stop(t))
    ensures Inv(Step(s, Stop(t)))
  {
    TakeExitedKeeps(s, t);
    RetiredKeeps(TakeExited(s, t));
  }

  lemma ReapsOnlyDone(s: System, w: nat)
    requires Owned(s) && w in Exited(s.retired, s.workers)
    ensures IsDone(s.workers, w) && s.place[w] == Retired
  {
    ExitedParts(s.retired, s.workers, w);
  }

  lemma TakeExitedKeeps(s: System, t: Thread)
    requires Inv(s) && Free(s, t)
    ensures Inv(TakeExited(s, t))
  {
    hide Partition, Epochs;
    TakeExitedKeepsPartition(s, t) by { assert Reap(s.reaping, t) == []; }
    var exited := Exited(s.retired, s.workers);
    forall w: nat | w in exited
      ensures IsDone(s.workers, w) && w < |s.place| && s.place[w] == Retired
    {
      ReapsOnlyDone(s, w);
    }
    var r := TakeExited(s, t);
    assert forall u: Thread :: u != t ==> Reap(r.reaping, u) == Reap(s.reaping, u);
  }

  lemma SpawnedEpochs(epoch: nat, workers: seq<Worker>)
    requires Epochs(epoch, None, workers)
    ensures Epochs(epoch + 1, Some(|workers|), workers + [Worker(epoch + 1, Checking)])
    ensures Epochs(epoch + 1, None, workers)
  {
  }

  lemma SpawnedReaps(place: seq<Place>, workers: seq<Worker>, d: Destructor, w: Worker)
    requires ReapsDone(place, workers, d)
    ensures ReapsDone(place + [Current], workers + [w], d)
  {
  }

  lemma SpawnedKeeps(s: System, spawns: bool)
    requires Inv(s)
    ensures Inv(Spawned(s, spawns))
  {
    hide Partition, Epochs, ReapsDone;
    SpawnedKeepsPartition(s, spawns);
    if s.current.None? {
      SpawnedEpochs(s.epoch, s.workers);
      SpawnedReaps(s.place, s.workers, s.destructor, Worker(s.epoch + 1, Checking));
    }
  }

  lemma RetiredKeeps(s: System)
    requires Inv(s)
    ensures Inv(RetiredCurrent(s))
  {
    RetiredKeepsPartition(s);
    hide Partition;
  }

  lemma JoinKeeps(s: System, t: Thread)
    requires Inv(s) && Enabled(s, Join(t))
    ensures Inv(JoinFirst(s, t))
  {
    hide Partition, Epochs;
    JoinKeepsPartition(s, t);
    var r := JoinFirst(s, t);
    assert forall u: Thread :: u != t ==> Reap(r.reaping, u) == Reap(s.reaping, u);
  }

  /** A worker in the loop moves on; nobody's ownership changes. */
  lemma PhaseKeeps(s: System, w: nat, p: Phase)
    requires Inv(s) && w < |s.workers| && !s.workers[w].phase.Done?
    requires p.Leaving? || p.Done? ==> s.workers[w].epoch != s.epoch
    requires s.workers[w].phase.Refreshing? ==> Reap(s.reaping, Av(w)) == []
    ensures Inv(WithPhase(s, w, p))
  {
    hide Lists, ReapersListed;
  }

  lemma HeartStartedKeeps(s: System, spawns: bool)
    requires Inv(s)
    ensures Inv(HeartStarted(s, spawns))
  {
    hide Partition, Epochs, ReapsDone;
  }

  lemma BeatKeeps(s: System, h: nat, b: Beat)
    requires Inv(s) && h < |s.hearts| && !s.hearts[h].Ended?
    requires s.hearts[h].Beaconing? ==> Reap(s.reaping, Heart(h)) == []
    ensures Inv(s.(hearts := s.hearts[h := b]))
  {
    hide Partition, Epochs, ReapsDone;
  }

  lemma CollectEpochs(epoch: nat, current: Option<nat>, workers: seq<Worker>)
    requires Epochs(epoch, current, workers)
    ensures Epochs(epoch + 1, None, workers)
  {
  }

  lemma NoneHeld(s: System)
    requires Owned(s) && ReapersBusy(s) && s.current.None? && s.retired == []
    ensures forall w: nat :: w < |s.place| ==> Settled(s.place[w], |s.workers|)
  {
    assert Lists(s.place, [], Current) && Lists(s.place, [], Retired);
    forall w: nat | w < |s.place|
      ensures Settled(s.place[w], |s.workers|)
    {
      if s.place[w].Reaping? {
        ReaperListed(s.place, s.reaping, s.place[w].caller);
        assert w in Reap(s.reaping, s.place[w].caller);
      }
    }
  }

  lemma CollectKeeps(s: System)
    requires Inv(s) && Enabled(s, Collect)
    ensures Inv(CollectAll(s, s.destructor.caller))
  {
    var t := s.destructor.caller;
    var r := CollectAll(s, t);
    CollectEpochs(s.epoch, s.current, s.workers);
    CollectKeepsPartition(s, t);
    assert forall u: Thread :: u != t ==> Reap(r.reaping, u) == Reap(s.reaping, u);
    hide Partition, Epochs, Lists;
    NoneHeld(r);
  }

  lemma NoneReaping(place: seq<Place>, workers: seq<Worker>, m: Reapers, t: Thread, n: nat)
    requires ReapersListed(place, m) && Reap(m, t) == []
    requires ReapsDone(place, workers, JoiningAll(t, n))
    ensures ReapsDone(place, workers, Returned(n))
  {
    ReaperListed(place, m, t);
  }

  lemma ReturnKeeps(s: System)
    requires Inv(s) && Enabled(s, Return)
    ensures Inv(Step(s, Return))
  {
    NoneReaping(s.place, s.workers, s.reaping, s.destructor.caller, s.destructor.collected);
    hide Partition, Epochs, ReapsDone;
  }

  lemma DestroyKeeps(s: System, t: Thread)
    requires Inv(s) && Enabled(s, Destroy(t))
    ensures Inv(Step(s, Destroy(t)))
  {
    hide Partition, Epochs;
  }

  lemma JoinHeartKeeps(s: System)
    requires Inv(s) && Enabled(s, JoinHeart)
    ensures Inv(Step(s, JoinHeart))
  {
    hide Partition, Epochs;
  }

  lemma StepKeeps(s: System, a: Action)
    requires Inv(s) && Enabled(s, a)
    ensures Inv(Step(s, a))
  {
    match a
    case Start(t, spawns) => StartKeeps(s, t, spawns);
    case Stop(t) => StopKeeps(s, t);
    case Join(t) => JoinKeeps(s, t);
    case Pass(w) => PhaseKeeps(s, w, Refreshing);
    case Leave(w) => PhaseKeeps(s, w, Leaving);
    case FinishRefresh(w) => PhaseKeeps(s, w, Checking);
    case Publish(w) => PublishKeeps(s, w);
    case StartHeart(_, spawns) => HeartStartedKeeps(s, spawns);
    case Wake(h) => BeatKeeps(s, h, Beaconing);
    case Quit(h) => BeatKeeps(s, h, Ended);
    case FinishBeacon(h) => BeatKeeps(s, h, Parked);
    case Destroy(t) => DestroyKeeps(s, t);
    case JoinHeart => JoinHeartKeeps(s);
    case Collect => CollectKeeps(s);
    case Return => ReturnKeeps(s);
  }

  lemma PublishKeeps(s: System, w: nat)
    requires Inv(s) && Enabled(s, Publish(w))
    ensures Inv(Step(s, Publish(w)))
  {
    assert s.workers[w].epoch < s.epoch;
    PhaseKeeps(s, w, Done);
  }

  lemma {:induction false} RunKeeps(s: System, run: seq<Action>)
    requires Inv(s) && Legal(s, run)
    ensures Inv(End(s, run))
    decreases |run|
  {
    hide Inv, Step;
    if |run| > 0 {
      StepKeeps(s, run[0]);
      RunKeeps(Step(s, run[0]), run[1..]);
    }
  }

  lemma InitialKeeps()
    ensures Inv(INITIAL)
  {
  }

  // ---------------------------------------------------------------- theorems

  /** The worker is in exactly one handle, the one `place` names. */
  ghost predicate InOneHandle(s: System, w: nat)
    requires w < |s.place|
  {
    && (s.current == Some(w) <==> s.place[w] == Current)
    && (w in s.retired <==> s.place[w] == Retired)
    && forall t: Thread :: w in Reap(s.reaping, t) <==> s.place[w] == Reaping(t)
  }

  /** `t` has a join ahead in a start or stop. */
  ghost predicate Waits(s: System, t: Thread) {
    Reap(s.reaping, t) != [] && !(s.destructor.JoiningAll? && s.destructor.caller == t)
  }

  /** Wherever any run leads: one handle per worker, one worker per epoch, and no join that could wait or wait for itself. */
  lemma EveryRun(run: seq<Action>)
    requires Legal(INITIAL, run)
    ensures var s := End(INITIAL, run);
      && |s.place| == |s.workers|
      && (forall w: nat :: w < |s.workers| ==> InOneHandle(s, w))
      && (forall w: nat :: w < |s.workers| && s.workers[w].epoch == s.epoch ==> s.current == Some(w))
      && (forall t: Thread :: Waits(s, t) ==> Enabled(s, Join(t)))
      && (forall w: nat :: w !in Reap(s.reaping, Av(w)))
  {
    InitialKeeps();
    RunKeeps(INITIAL, run);
    HandlesOf(End(INITIAL, run));
  }

  lemma HandlesOf(s: System)
    requires Inv(s)
    ensures forall w: nat :: w < |s.workers| ==> InOneHandle(s, w)
    ensures forall t: Thread :: Waits(s, t) ==> Enabled(s, Join(t))
    ensures forall w: nat :: w !in Reap(s.reaping, Av(w))
  {
    hide Epochs;
    forall w: nat | w < |s.workers|
      ensures InOneHandle(s, w)
    {
      assert w in Held(s.current) <==> s.current == Some(w);
    }
    forall t: Thread | Waits(s, t)
      ensures Enabled(s, Join(t))
    {
      ReaperListed(s.place, s.reaping, t);
      assert Reap(s.reaping, t)[0] in Reap(s.reaping, t);
    }
    forall w: nat
      ensures w !in Reap(s.reaping, Av(w))
    {
      ReaperListed(s.place, s.reaping, Av(w));
    }
  }

  /** Epochs only grow, and a worker keeps the one it was spawned with. */
  lemma StepMonotone(s: System, a: Action, w: nat)
    requires Enabled(s, a) && w < |s.workers|
    ensures var r := Step(s, a);
      s.epoch <= r.epoch && w < |r.workers| && r.workers[w].epoch == s.workers[w].epoch
  {
  }

  lemma {:induction false} OutdatedNeverPasses(s: System, run: seq<Action>, w: nat)
    requires Legal(s, run) && w < |s.workers| && s.workers[w].epoch < s.epoch
    ensures Pass(w) !in run
    decreases |run|
  {
    if |run| > 0 {
      StepMonotone(s, run[0], w);
      OutdatedNeverPasses(Step(s, run[0]), run[1..], w);
      assert run == [run[0]] + run[1..];
    }
  }

  /** Once a worker is not the current one it begins no further cycle, whatever happens next. */
  lemma RetiredNeverPasses(run: seq<Action>, next: seq<Action>, w: nat)
    requires Legal(INITIAL, run)
    requires var s := End(INITIAL, run); w < |s.workers| && s.current != Some(w) && Legal(s, next)
    ensures Pass(w) !in next
  {
    InitialKeeps();
    RunKeeps(INITIAL, run);
    var s := End(INITIAL, run);
    assert s.workers[w].epoch < s.epoch;
    OutdatedNeverPasses(s, next, w);
  }

  /** So after a stop no worker spawned before it does, started again or not. */
  lemma StopStops(run: seq<Action>, t: Thread, next: seq<Action>, w: nat)
    requires Legal(INITIAL, run)
    requires var s := End(INITIAL, run);
      w < |s.workers| && Enabled(s, Stop(t)) && Legal(Step(s, Stop(t)), next)
    ensures Pass(w) !in next
  {
    InitialKeeps();
    RunKeeps(INITIAL, run);
    var s := End(INITIAL, run);
    StepKeeps(s, Stop(t));
    var r := Step(s, Stop(t));
    StepMonotone(s, Stop(t), w);
    assert r.current.None? && r.workers[w].epoch < r.epoch;
    OutdatedNeverPasses(r, next, w);
  }

  // ---------------------------------------------------------------- the destructor

  /** No thread but the client's own is inside start or stop. */
  ghost predicate NoOutsideCall(s: System) {
    forall k: nat :: Reap(s.reaping, Outside(k)) == []
  }

  /**
   * When ~Client returns, every worker that existed when it collected them is joined, and no
   * heartbeat lives, unless an outside thread is still inside a call it should not be making.
   */
  lemma AllJoined(run: seq<Action>)
    requires Legal(INITIAL, run)
    requires var s := End(INITIAL, run); s.destructor.Returned? && NoOutsideCall(s)
    ensures var s := End(INITIAL, run);
      && s.destructor.collected <= |s.place|
      && (forall w :: 0 <= w < s.destructor.collected ==> s.place[w].Joined? && IsDone(s.workers, w))
      && s.heart.None? && (forall h :: 0 <= h < |s.hearts| ==> s.hearts[h].Ended?)
  {
    InitialKeeps();
    RunKeeps(INITIAL, run);
    JoinedOf(End(INITIAL, run));
  }

  lemma SettledIsDone(s: System, v: nat)
    requires Inv(s) && s.destructor.Returned? && v < s.destructor.collected
    ensures IsDone(s.workers, v)
  {
    assert Settled(s.place[v], s.destructor.collected);
  }

  lemma JoinedOf(s: System)
    requires Inv(s) && s.destructor.Returned? && NoOutsideCall(s)
    ensures s.destructor.collected <= |s.place|
    ensures forall w :: 0 <= w < s.destructor.collected ==> s.place[w].Joined? && IsDone(s.workers, w)
    ensures s.heart.None? && (forall h :: 0 <= h < |s.hearts| ==> s.hearts[h].Ended?)
  {
    hide Epochs;
    forall w | 0 <= w < s.destructor.collected
      ensures s.place[w].Joined? && IsDone(s.workers, w)
    {
      if s.place[w].Reaping? {
        var t := s.place[w].caller;
        ReaperListed(s.place, s.reaping, t);
        assert w in Reap(s.reaping, t);
        match t {
          case Outside(k) => assert false;
          case Av(v) =>
            SettledIsDone(s, v);
            assert false;
          case Heart(h) => assert false;
        }
      }
    }
  }

  /** The destructor's section is behind. */
  predicate Late(s: System) {
    s.destructor.JoiningAll? || s.destructor.Returned?
  }

  predicate SpawnsLate(s: System, a: Action) {
    Late(s) && a.Start? && a.spawns && s.current.None?
  }

  /** No start of the run spawns a worker after the destructor collected them. */
  ghost predicate NoLateSpawn(s: System, run: seq<Action>)
    requires Legal(s, run)
    decreases |run|
  {
    |run| > 0 ==> !SpawnsLate(s, run[0]) && NoLateSpawn(Step(s, run[0]), run[1..])
  }

  ghost predicate NoLateStop(s: System, run: seq<Action>)
    requires Legal(s, run)
    decreases |run|
  {
    |run| > 0 ==> !(Late(s) && run[0].Stop?) && NoLateStop(Step(s, run[0]), run[1..])
  }

  ghost predicate AllDone(s: System) {
    forall w: nat :: w < |s.workers| ==> IsDone(s.workers, w)
  }

  predicate AllCollected(s: System) {
    Late(s) ==> |s.workers| == s.destructor.collected
  }

  lemma StepCollects(s: System, a: Action)
    requires Enabled(s, a) && AllCollected(s) && !SpawnsLate(s, a)
    ensures AllCollected(Step(s, a))
  {
  }

  lemma {:induction false} RunCollects(s: System, run: seq<Action>)
    requires Legal(s, run) && AllCollected(s) && NoLateSpawn(s, run)
    ensures AllCollected(End(s, run))
    decreases |run|
  {
    hide Step, AllCollected;
    if |run| > 0 {
      StepCollects(s, run[0]);
      RunCollects(Step(s, run[0]), run[1..]);
    }
  }

  /** The destructor has collected, and there is a current worker all the same. */
  predicate Stray(s: System) {
    Late(s) && s.current.Some?
  }

  lemma StepKeepsStray(s: System, a: Action)
    requires Enabled(s, a) && (Stray(s) || SpawnsLate(s, a)) && !(Late(s) && a.Stop?)
    ensures Stray(Step(s, a))
  {
  }

  lemma {:induction false} RunKeepsStray(s: System, run: seq<Action>)
    requires Legal(s, run) && NoLateStop(s, run) && (Stray(s) || !NoLateSpawn(s, run))
    ensures Stray(End(s, run))
    decreases |run|
  {
    hide Step, Stray, SpawnsLate;
    if |run| > 0 {
      if Stray(s) || SpawnsLate(s, run[0]) {
        StepKeepsStray(s, run[0]);
      }
      RunKeepsStray(Step(s, run[0]), run[1..]);
    }
  }

  /** A current worker has not finished, and when ~Client has returned nobody will join it. */
  lemma CurrentNeverDone(run: seq<Action>, w: nat)
    requires Legal(INITIAL, run) && End(INITIAL, run).current == Some(w)
    ensures var s := End(INITIAL, run);
      && w < |s.workers| && !IsDone(s.workers, w)
      && forall t: Thread :: w !in Reap(s.reaping, t)
  {
    InitialKeeps();
    RunKeeps(INITIAL, run);
    var s := End(INITIAL, run);
    assert w in Held(s.current);
    forall t: Thread
      ensures w !in Reap(s.reaping, t)
    {
      ReaperListed(s.place, s.reaping, t);
    }
  }

  /**
   * No worker outlives the client if no start spawns one after the destructor's section; and if
   * no stop comes after it either, only then.
   */
  lemma NoneOutlivesTheClient(run: seq<Action>)
    requires Legal(INITIAL, run)
    requires var s := End(INITIAL, run); s.destructor.Returned? && NoOutsideCall(s)
    ensures NoLateSpawn(INITIAL, run) ==> AllDone(End(INITIAL, run))
    ensures NoLateStop(INITIAL, run) ==> (AllDone(End(INITIAL, run)) <==> NoLateSpawn(INITIAL, run))
  {
    hide Step, NoLateSpawn, NoLateStop;
    AllJoined(run);
    if NoLateSpawn(INITIAL, run) {
      RunCollects(INITIAL, run);
    } else if NoLateStop(INITIAL, run) {
      RunKeepsStray(INITIAL, run);
      CurrentNeverDone(run, End(INITIAL, run).current.value);
    }
  }

  lemma HeartsStay(s: System, a: Action)
    requires Inv(s) && Enabled(s, a) && !s.destructor.NotBegun?
    ensures |Step(s, a).hearts| == |s.hearts| && !Step(s, a).destructor.NotBegun?
  {
  }

  /** From the moment ~Client begins no heartbeat is ever spawned, whoever resolves a state. */
  lemma {:induction false} HeartNeverRespawns(s: System, run: seq<Action>)
    requires Inv(s) && Legal(s, run) && !s.destructor.NotBegun?
    ensures |End(s, run).hearts| == |s.hearts|
    decreases |run|
  {
    if |run| > 0 {
      HeartsStay(s, run[0]);
      StepKeeps(s, run[0]);
      HeartNeverRespawns(Step(s, run[0]), run[1..]);
    }
  }

  ghost predicate Leads(s: System, a: Action, r: System) {
    Enabled(s, a) && Step(s, a) == r
  }

  lemma {:induction false} Path(states: seq<System>, run: seq<Action>)
    requires |states| == |run| + 1 && forall i :: 0 <= i < |run| ==> Leads(states[i], run[i], states[i + 1])
    ensures Legal(states[0], run) && End(states[0], run) == states[|run|]
  {
    hide Enabled, Step;
    if |run| > 0 {
      assert Leads(states[0], run[0], states[1]);
      forall i | 0 <= i < |run[1..]|
        ensures Leads(states[1..][i], run[1..][i], states[1..][i + 1])
      {
        assert Leads(states[i + 1], run[i + 1], states[i + 2]);
      }
      Path(states[1..], run[1..]);
    }
  }

  /** Every thread is outside start and stop, the client is gone, and a worker still runs. */
  ghost predicate LeavesWorker(s: System) {
    s.destructor.Returned? && NoOutsideCall(s) && !AllDone(s)
  }

  lemma FirstStart(s: System, r: System, t: Thread)
    requires s == INITIAL && t.Outside?
    requires r == s.(epoch := 1, current := Some(0), workers := [Worker(1, Checking)], place := [Current],
                     reaping := map[t := []])
    ensures Leads(s, Start(t, true), r)
  {
    assert s.reaping[t := []] == r.reaping;
  }

  lemma CollectsOne(s: System, r: System, t: Thread)
    requires s.destructor == HeartGone(t) && s.current == Some(0) && s.retired == [] && |s.workers| == |s.place| == 1
    requires s.reaping == map[t := []]
    requires r == s.(epoch := s.epoch + 1, current := None, reaping := map[t := [0]], place := [Reaping(t)],
                     destructor := JoiningAll(t, 1))
    ensures Leads(s, Collect, r)
  {
    assert Held(s.current) + s.retired == [0];
    assert s.reaping[t := [0]] == r.reaping;
    assert Mark(s.place, [0], Reaping(t)) == r.place;
  }

  /** A listener on worker 0 starts another one while `t` waits to join the first. */
  lemma ListenerStarts(s: System, r: System, t: Thread)
    requires s.workers == [Worker(1, Refreshing)] && s.current.None? && s.retired == []
    requires t.Outside? && s.reaping == map[t := [0]] && s.place == [Reaping(t)]
    requires r == s.(epoch := s.epoch + 1, current := Some(1), workers := s.workers + [Worker(s.epoch + 1, Checking)],
                     place := s.place + [Current], reaping := map[t := [0], Av(0) := []])
    ensures Leads(s, Start(Av(0), true), r)
  {
    assert s.reaping[Av(0) := []] == r.reaping;
    assert Mark(s.place, [], Reaping(Av(0))) == s.place;
  }

  lemma WorkerLeaves(s: System, two: Worker, r: seq<System>)
    requires s.workers == [Worker(1, Refreshing), two] && s.epoch != 1 && Reap(s.reaping, Av(0)) == []
    requires r == [s.(workers := [Worker(1, Checking), two]), s.(workers := [Worker(1, Leaving), two]),
                   s.(workers := [Worker(1, Done), two])]
    ensures Leads(s, FinishRefresh(0), r[0]) && Leads(r[0], Leave(0), r[1]) && Leads(r[1], Publish(0), r[2])
  {
  }

  lemma LastJoin(s: System, two: Worker, t: Thread, r: System)
    requires s.workers == [Worker(1, Done), two] && s.place == [Reaping(t), Current]
    requires t.Outside? && s.reaping == map[t := [0], Av(0) := []]
    requires r == s.(reaping := map[t := [], Av(0) := []], place := [Joined, Current])
    ensures Leads(s, Join(t), r)
  {
    assert s.reaping[t := []] == r.reaping;
    assert Mark(s.place, [0], Joined) == r.place;
  }

  lemma Turns(s: System, t: Thread)
    requires t.Outside?
    ensures s.workers == [Worker(s.epoch, Checking)] ==> Leads(s, Pass(0), s.(workers := [Worker(s.epoch, Refreshing)]))
    ensures s.destructor.NotBegun? && Reap(s.reaping, t) == [] && s.heart.None? ==>
      Leads(s, Destroy(t), s.(khStop := true, khShutdown := true, destructor := StoppingHeart(t, None)))
    ensures s.destructor == StoppingHeart(t, None) ==> Leads(s, JoinHeart, s.(destructor := HeartGone(t)))
    ensures s.destructor == JoiningAll(t, 1) && Reap(s.reaping, t) == [] ==> Leads(s, Return, s.(destructor := Returned(1)))
  {
  }

  /** A listener that starts validation while the destructor waits for it leaves a worker nobody joins. */
  lemma LateStart(run: seq<Action>)
    requires run == [Start(Outside(0), true), Pass(0), Destroy(Outside(0)), JoinHeart, Collect, Start(Av(0), true),
                     FinishRefresh(0), Leave(0), Publish(0), Join(Outside(0)), Return]
    ensures Legal(INITIAL, run) && LeavesWorker(End(INITIAL, run))
  {
    hide Leads, Legal, End, LeavesWorker;
    var app := Outside(0);
    var one, two := Worker(1, Refreshing), Worker(3, Checking);
    var s1 := INITIAL.(epoch := 1, current := Some(0), workers := [Worker(1, Checking)], place := [Current],
                       reaping := map[app := []]);
    FirstStart(INITIAL, s1, app);
    var s2 := s1.(workers := [one]);
    Turns(s1, app);
    var s3 := s2.(khStop := true, khShutdown := true, destructor := StoppingHeart(app, None));
    Turns(s2, app);
    var s4 := s3.(destructor := HeartGone(app));
    Turns(s3, app);
    var s5 := s4.(epoch := 2, current := None, reaping := map[app := [0]], place := [Reaping(app)],
                  destructor := JoiningAll(app, 1));
    CollectsOne(s4, s5, app);
    var s6 := s5.(epoch := 3, current := Some(1), workers := [one, two], place := [Reaping(app), Current],
                  reaping := map[app := [0], Av(0) := []]);
    ListenerStarts(s5, s6, app);
    var s7, s8 := s6.(workers := [Worker(1, Checking), two]), s6.(workers := [Worker(1, Leaving), two]);
    var s9 := s6.(workers := [Worker(1, Done), two]);
    WorkerLeaves(s6, two, [s7, s8, s9]);
    var s10 := s9.(reaping := map[app := [], Av(0) := []], place := [Joined, Current]);
    LastJoin(s9, two, app, s10);
    var s11 := s10.(destructor := Returned(1));
    Turns(s10, app);
    Path([INITIAL, s1, s2, s3, s4, s5, s6, s7, s8, s9, s10, s11], run);
    OneLeft(s11);
  }

  lemma OneLeft(s: System)
    requires s.destructor.Returned? && s.workers == [Worker(1, Done), Worker(3, Checking)]
    requires s.reaping == map[Outside(0) := [], Av(0) := []]
    ensures LeavesWorker(s)
  {
    assert !IsDone(s.workers, 1);
  }

  // ---------------------------------------------------------------- progress

  /** What an outdated worker does next. */
  function Own(s: System, w: nat): (a: Action)
    requires w < |s.workers| && !s.workers[w].phase.Done?
  {
    match s.workers[w].phase
    case Checking => Leave(w)
    case Refreshing => if Reap(s.reaping, Av(w)) == [] then FinishRefresh(w) else Join(Av(w))
    case _ => Publish(w)
  }

  ghost function Ahead(s: System, w: nat): (n: nat)
    requires w < |s.workers|
  {
    match s.workers[w].phase
    case Checking => 2
    case Refreshing => 3 + |Reap(s.reaping, Av(w))|
    case Leaving => 1
    case Done => 0
  }

  lemma OwnEnabled(s: System, w: nat)
    requires Inv(s) && w < |s.workers| && !s.workers[w].phase.Done? && s.workers[w].epoch < s.epoch
    ensures Enabled(s, Own(s, w))
    ensures var r := Step(s, Own(s, w));
      w < |r.workers| && Ahead(r, w) < Ahead(s, w) && r.workers[w].epoch < r.epoch
  {
    HandlesOf(s);
    assert Waits(s, Av(w)) <==> Reap(s.reaping, Av(w)) != [];
  }

  /**
   * A retired worker finishes by its own steps alone, once the refresh it is in returns; so each
   * join of ~Client returns.
   */
  lemma {:induction false} RetiredWorkerExits(s: System, w: nat) returns (run: seq<Action>)
    requires Inv(s) && w < |s.workers| && s.workers[w].epoch < s.epoch
    ensures Legal(s, run) && IsDone(End(s, run).workers, w)
    ensures forall k :: 0 <= k < |run| ==> run[k] in {Leave(w), FinishRefresh(w), Join(Av(w)), Publish(w)}
    decreases Ahead(s, w)
  {
    if s.workers[w].phase.Done? {
      run := [];
    } else {
      OwnEnabled(s, w);
      var a := Own(s, w);
      StepKeeps(s, a);
      var rest := RetiredWorkerExits(Step(s, a), w);
      run := [a] + rest;
      assert run[0] == a && run[1..] == rest;
    }
  }

  // ---------------------------------------------------------------- what a call brings about

  /** The finished workers of the retired list are now `t`'s to join, the others stay, and nobody else's change. */
  ghost predicate TookFinished(s: System, r: System, t: Thread) {
    && (forall w: nat :: w in Reap(r.reaping, t) <==> w in s.retired && IsDone(s.workers, w))
    && (forall w: nat :: w in s.retired ==> (w in r.retired <==> !IsDone(s.workers, w)))
    && forall u: Thread :: u != t ==> Reap(r.reaping, u) == Reap(s.reaping, u)
  }

  lemma TakesFinished(s: System, t: Thread)
    requires Free(s, t)
    ensures TookFinished(s, TakeExited(s, t), t)
  {
    var r := TakeExited(s, t);
    forall w: nat
      ensures w in r.retired <==> w in s.retired && !IsDone(s.workers, w)
      ensures w in Reap(r.reaping, t) <==> w in s.retired && IsDone(s.workers, w)
    {
      ExitedParts(s.retired, s.workers, w);
    }
  }

  /** A worker alone: the epoch check passes, it refreshes, and is back where it was. */
  ghost predicate Cycles(s: System, w: nat) {
    var run := [Pass(w), FinishRefresh(w)];
    Legal(s, run) && End(s, run) == s
  }

  lemma TwoSteps(s: System, a: Action, b: Action)
    requires Enabled(s, a) && Enabled(Step(s, a), b)
    ensures Legal(s, [a, b]) && End(s, [a, b]) == Step(Step(s, a), b)
  {
    hide Step, Enabled;
    assert [a, b][1..] == [b] && [b][1..] == [];
    assert Legal(Step(Step(s, a), b), []) && End(Step(Step(s, a), b), []) == Step(Step(s, a), b);
    assert Legal(Step(s, a), [b]) && End(Step(s, a), [b]) == Step(Step(s, a), b);
  }

  /** The current worker can always begin a cycle when it looks, and a cycle brings it back. */
  lemma CurrentCycles(run: seq<Action>, w: nat)
    requires Legal(INITIAL, run) && End(INITIAL, run).current == Some(w) && At(End(INITIAL, run), w, Checking)
    ensures Cycles(End(INITIAL, run), w)
  {
    InitialKeeps();
    RunKeeps(INITIAL, run);
    var s := End(INITIAL, run);
    hide Partition, Lists;
    assert s.workers[w].epoch == s.epoch;
    assert Reap(s.reaping, Av(w)) == [];
    assert s.workers[w := Worker(s.epoch, Refreshing)][w := s.workers[w]] == s.workers;
    TwoSteps(s, Pass(w), FinishRefresh(w));
  }

  /** A start makes sure a worker is current: the one there was, or a new one about to cycle, unless the system refuses it. */
  lemma StartStarts(run: seq<Action>, t: Thread, spawns: bool)
    requires Legal(INITIAL, run) && Enabled(End(INITIAL, run), Start(t, spawns))
    ensures var s := End(INITIAL, run); var r := Step(s, Start(t, spawns));
      && (s.current.Some? ==> r.current == s.current && r.workers == s.workers && r.epoch == s.epoch)
      && (s.current.None? && spawns ==>
          var w := |s.workers|; |r.workers| == w + 1 && r.workers[..w] == s.workers && r.current == Some(w) && Cycles(r, w))
      && (s.current.None? && !spawns ==> r.current.None? && r.workers == s.workers)
      && TookFinished(s, r, t)
  {
    var s := End(INITIAL, run);
    TakesFinished(s, t);
    if s.current.None? && spawns {
      var a := Start(t, spawns);
      LegalThen(INITIAL, run, a);
      CurrentCycles(run + [a], |s.workers|);
    }
  }

  lemma {:induction false} LegalThen(s: System, run: seq<Action>, a: Action)
    requires Legal(s, run) && Enabled(End(s, run), a)
    ensures Legal(s, run + [a]) && End(s, run + [a]) == Step(End(s, run), a)
    decreases |run|
  {
    hide Step, Enabled;
    if |run| > 0 {
      assert (run + [a])[1..] == run[1..] + [a];
      LegalThen(Step(s, run[0]), run[1..], a);
    } else {
      assert run + [a] == [a] && [a][1..] == [];
      assert Legal(Step(s, a), []) && End(Step(s, a), []) == Step(s, a);
    }
  }

  lemma CurrentNotRetired(s: System, w: nat)
    requires Inv(s) && s.current == Some(w)
    ensures w !in s.retired && w < |s.workers| && s.workers[w].epoch == s.epoch
  {
    assert w in Held(s.current);
    hide ReapsDone, ReapersBusy, HeartLatched, Collected, ReapersListed;
  }

  lemma RetiredTook(s: System, m: System, t: Thread)
    requires TookFinished(s, m, t) && (m.current.Some? ==> m.current.value !in s.retired)
    ensures TookFinished(s, RetiredCurrent(m), t)
  {
  }

  ghost predicate Retires(s: System, r: System, t: Thread) {
    && r.current.None? && r.workers == s.workers && TookFinished(s, r, t)
    && forall w: nat :: s.current == Some(w) ==> w in r.retired && (At(r, w, Checking) ==> Enabled(r, Leave(w)))
  }

  lemma StopOf(s: System, t: Thread)
    requires Inv(s) && Free(s, t)
    ensures Retires(s, RetiredCurrent(TakeExited(s, t)), t)
  {
    TakesFinished(s, t);
    if s.current.Some? {
      CurrentNotRetired(s, s.current.value);
    }
    hide Inv, TookFinished, Free;
    RetiredTook(s, TakeExited(s, t), t);
  }

  /** A stop retires the current worker: it is on the list of those to be joined and its next look at the epoch fails. */
  lemma StopRetires(run: seq<Action>, t: Thread)
    requires Legal(INITIAL, run) && Enabled(End(INITIAL, run), Stop(t))
    ensures Retires(End(INITIAL, run), Step(End(INITIAL, run), Stop(t)), t)
  {
    hide Inv, Free, Retires, RetiredCurrent, TakeExited, Legal, End;
    InitialKeeps();
    RunKeeps(INITIAL, run);
    StopOf(End(INITIAL, run), t);
  }

  /** A heartbeat alone: it wakes, beacons, and sleeps again. */
  ghost predicate Beating(s: System, h: nat) {
    var run := [Wake(h), FinishBeacon(h)];
    Legal(s, run) && End(s, run) == s
  }

  /** A state that calls for the heartbeat starts one that beats, unless one is there, the client is going, or the system refuses. */
  lemma HeartStarts(run: seq<Action>, t: Thread, spawns: bool)
    requires Legal(INITIAL, run) && Enabled(End(INITIAL, run), StartHeart(t, spawns))
    ensures var s := End(INITIAL, run); var r := Step(s, StartHeart(t, spawns)); var h := |s.hearts|;
      if s.destructor.NotBegun? && s.heart.None? && spawns
      then |r.hearts| == h + 1 && r.hearts[..h] == s.hearts && r.heart == Some(h) && Beating(r, h)
      else r.hearts == s.hearts && r.heart == s.heart
  {
    InitialKeeps();
    RunKeeps(INITIAL, run);
    var s := End(INITIAL, run);
    hide Owned, Epochs, ReapsDone, Collected;
    if s.destructor.NotBegun? && s.heart.None? && spawns {
      var h := |s.hearts|;
      assert !Beats(s, h, Beaconing) && Reap(s.reaping, Heart(h)) == [];
      hide Inv;
      BeatsAlone(Step(s, StartHeart(t, spawns)), h);
    }
  }

  lemma BeatsAlone(r: System, h: nat)
    requires Beats(r, h, Parked) && !r.khStop && Reap(r.reaping, Heart(h)) == []
    ensures Beating(r, h)
  {
    assert r.hearts[h := Beaconing][h := Parked] == r.hearts;
    TwoSteps(r, Wake(h), FinishBeacon(h));
  }

  /** Once the destructor has begun, the heartbeat it stops ends at its next look. */
  lemma HeartStops(run: seq<Action>, t: Thread, h: nat)
    requires Legal(INITIAL, run) && Enabled(End(INITIAL, run), Destroy(t))
    requires End(INITIAL, run).heart == Some(h)
    ensures var r := Step(End(INITIAL, run), Destroy(t));
      && r.destructor == StoppingHeart(t, Some(h)) && (Beats(r, h, Parked) ==> Enabled(r, Quit(h)))
      && !Enabled(r, Wake(h)) && (Enabled(r, JoinHeart) <==> Beats(r, h, Ended))
  {
  }
}
