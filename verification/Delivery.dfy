/**
 * The event channel of the client (`notify_`, include/keylight/client.hpp:2806-2889) as a
 * transition system. Any number of threads take part; each critical section is one step; a
 * listener may call back into the client, which shows as frames piled on its thread's stack.
 */
module Delivery {
  import opened Collections
  import opened States

  /** Where one activation of `notify_` stands. All but `Polling` hold the baton. */
  datatype Frame =
    | Polling                                          // called, first critical section still ahead
    | Fetching                                         // about to look at the queue
    | Copying(ev: State)                               // took an event, about to copy the callbacks
    | Calling(ev: State, cbs: seq<nat>, next: nat)     // `next` callbacks have been entered

  datatype Owner = Nobody | Holder(thread: nat, depth: nat)

  /** One event together with the listeners it was delivered to. */
  datatype Round = Round(ev: State, cbs: seq<nat>)

  /** One callback entered. */
  datatype Receipt = Receipt(listener: nat, ev: State)

  datatype Channel = Channel(
    raw: State,             // state_
    untrusted: bool,        // clock_untrusted_()
    last: State,            // last_reported_
    pending: seq<State>,
    delivering: bool,
    listeners: seq<nat>,    // ids, in subscription order
    nextId: nat,
    stacks: Stacks,
    // What follows only records the run; no step looks at it.
    boot: State,            // what the constructor seeded last_reported_ with
    owner: Owner,           // the activation that holds the baton
    history: seq<State>,    // everything ever queued
    rounds: seq<Round>,     // deliveries completed
    log: seq<Receipt>,      // callbacks entered
    moved: bool)            // the clock's verdict changed since the last critical section of a notify_

  datatype Action =
    | SetState(thread: nat, s: State)   // set_state_: store, then call notify_
    | Poll(thread: nat)                 // call notify_
    | Move(untrusted: bool)             // the clock or its anchor moves
    | Section(thread: nat)              // the first critical section of notify_
    | Take(thread: nat)                 // the critical section at the head of the loop
    | Copy(thread: nat)                 // copy the callbacks
    | Call(thread: nat)                 // enter the next callback
    | Finish(thread: nat)               // the callbacks are done
    | Subscribe
    | Unsubscribe(id: nat)

  // ---------------------------------------------------------------- steps

  /** `state()`. */
  function Reported(c: Channel): State {
    if c.untrusted then Invalid else c.raw
  }

  type Stacks = map<nat, seq<Frame>>

  function Stack(m: Stacks, t: nat): (s: seq<Frame>) {
    if t in m then m[t] else []
  }

  predicate Busy(m: Stacks, t: nat) {
    |Stack(m, t)| > 0
  }

  function Top(m: Stacks, t: nat): (f: Frame)
    requires Busy(m, t)
  {
    Stack(m, t)[|Stack(m, t)| - 1]
  }

  function Pushed(m: Stacks, t: nat, f: Frame): (n: Stacks) {
    m[t := Stack(m, t) + [f]]
  }

  function Popped(m: Stacks, t: nat): (n: Stacks)
    requires Busy(m, t)
  {
    m[t := Stack(m, t)[..|Stack(m, t)| - 1]]
  }

  function Replaced(m: Stacks, t: nat, f: Frame): (n: Stacks)
    requires Busy(m, t)
  {
    m[t := Stack(m, t)[|Stack(m, t)| - 1 := f]]
  }

  /** Client calls come from threads outside it or from inside a callback. */
  predicate InUserCode(c: Channel, t: nat) {
    Busy(c.stacks, t) ==> Top(c.stacks, t).Calling? && Top(c.stacks, t).next > 0
  }

  predicate Enabled(c: Channel, a: Action) {
    match a
    case SetState(t, _) => InUserCode(c, t)
    case Poll(t) => InUserCode(c, t)
    case Move(_) => true
    case Section(t) => Busy(c.stacks, t) && Top(c.stacks, t).Polling?
    case Take(t) => Busy(c.stacks, t) && Top(c.stacks, t).Fetching?
    case Copy(t) => Busy(c.stacks, t) && Top(c.stacks, t).Copying?
    case Call(t) => Busy(c.stacks, t) && Top(c.stacks, t).Calling? && Top(c.stacks, t).next < |Top(c.stacks, t).cbs|
    case Finish(t) => Busy(c.stacks, t) && Top(c.stacks, t).Calling? && Top(c.stacks, t).next >= |Top(c.stacks, t).cbs|
    case Subscribe => true
    case Unsubscribe(_) => true
  }

  /** Dedupe, enqueue, and take the baton if nobody has it. */
  function SectionStep(c: Channel, t: nat): (d: Channel)
    requires Enabled(c, Section(t))
  {
    var r := Reported(c);
    if c.last == r then c.(stacks := Popped(c.stacks, t), moved := false)
    else
      var q := c.(pending := c.pending + [r], last := r, history := c.history + [r], moved := false);
      if c.delivering then q.(stacks := Popped(c.stacks, t))
      else q.(delivering := true, stacks := Replaced(c.stacks, t, Fetching), owner := Holder(t, |Stack(c.stacks, t)| - 1))
  }

  /** Take the oldest event, or hand the baton back with the check that found none. */
  function TakeStep(c: Channel, t: nat): (d: Channel)
    requires Enabled(c, Take(t))
  {
    if c.pending == [] then c.(delivering := false, stacks := Popped(c.stacks, t), owner := Nobody)
    else c.(pending := c.pending[1..], stacks := Replaced(c.stacks, t, Copying(c.pending[0])))
  }

  function CallStep(c: Channel, t: nat): (d: Channel)
    requires Enabled(c, Call(t))
  {
    var f := Top(c.stacks, t);
    c.(stacks := Replaced(c.stacks, t, f.(next := f.next + 1)), log := c.log + [Receipt(f.cbs[f.next], f.ev)])
  }

  function FinishStep(c: Channel, t: nat): (d: Channel)
    requires Enabled(c, Finish(t))
  {
    var f := Top(c.stacks, t);
    c.(stacks := Replaced(c.stacks, t, Fetching), rounds := c.rounds + [Round(f.ev, f.cbs)])
  }

  function Without(s: seq<nat>, id: nat): (t: seq<nat>) {
    if |s| == 0 then [] else (if s[0] == id then [] else [s[0]]) + Without(s[1..], id)
  }

  function Step(c: Channel, a: Action): (d: Channel)
    requires Enabled(c, a)
  {
    match a
    case SetState(t, s) => c.(raw := s, stacks := Pushed(c.stacks, t, Polling))
    case Poll(t) => c.(stacks := Pushed(c.stacks, t, Polling))
    case Move(u) => c.(untrusted := u, moved := c.moved || u != c.untrusted)
    case Section(t) => SectionStep(c, t)
    case Take(t) => TakeStep(c, t)
    case Copy(t) => c.(stacks := Replaced(c.stacks, t, Calling(Top(c.stacks, t).ev, c.listeners, 0)))
    case Call(t) => CallStep(c, t)
    case Finish(t) => FinishStep(c, t)
    case Subscribe => c.(listeners := c.listeners + [c.nextId + 1], nextId := c.nextId + 1)
    case Unsubscribe(id) => c.(listeners := Without(c.listeners, id))
  }

  /** After the constructor: nobody has subscribed and nothing is queued. */
  function Booted(raw: State, untrusted: bool): (c: Channel) {
    var s := if untrusted then Invalid else raw;
    Channel(raw, untrusted, s, [], false, [], 0, map[], s, Nobody, [], [], [], false)
  }

  /** Every action of `run` is enabled when its turn comes. */
  ghost predicate Legal(c: Channel, run: seq<Action>)
    decreases |run|
  {
    |run| > 0 ==> Enabled(c, run[0]) && Legal(Step(c, run[0]), run[1..])
  }

  ghost function End(c: Channel, run: seq<Action>): (d: Channel)
    requires Legal(c, run)
    decreases |run|
  {
    if |run| == 0 then c else End(Step(c, run[0]), run[1..])
  }

  // ---------------------------------------------------------------- the invariant

  predicate Draining(f: Frame) {
    !f.Polling?
  }

  /** At most one activation drains, and `delivering` says whether one does. */
  ghost predicate Baton(delivering: bool, owner: Owner, m: Stacks) {
    && (delivering <==> owner.Holder?)
    && (owner.Holder? ==> owner.depth < |Stack(m, owner.thread)|)
    && forall t, d :: 0 <= d < |Stack(m, t)| ==> (Draining(Stack(m, t)[d]) <==> owner == Holder(t, d))
  }

  ghost function FrameFlight(f: Frame): (s: seq<State>) {
    if f.Copying? || f.Calling? then [f.ev] else []
  }

  /** The event the owner has taken and not finished delivering. */
  ghost function InFlight(owner: Owner, m: Stacks): (s: seq<State>) {
    if owner.Holder? && owner.depth < |Stack(m, owner.thread)| then FrameFlight(Stack(m, owner.thread)[owner.depth])
    else []
  }

  ghost function Delivered(rounds: seq<Round>): (s: seq<State>)
    ensures |s| == |rounds|
  {
    if |rounds| == 0 then [] else Delivered(rounds[..|rounds| - 1]) + [rounds[|rounds| - 1].ev]
  }

  ghost function Before(boot: State, history: seq<State>, i: nat): (s: State)
    requires i <= |history|
  {
    if i == 0 then boot else history[i - 1]
  }

  ghost predicate Alternating(boot: State, history: seq<State>, last: State) {
    && last == Before(boot, history, |history|)
    && forall i :: 0 <= i < |history| ==> history[i] != Before(boot, history, i)
  }

  /** Some thread has called `notify_` and not yet entered its critical section. */
  ghost predicate PollAhead(m: Stacks) {
    exists t, d :: 0 <= d < |Stack(m, t)| && Stack(m, t)[d].Polling?
  }

  /** Callbacks entered for `ev`. */
  ghost function Receipts(ev: State, cbs: seq<nat>): (r: seq<Receipt>)
    ensures |r| == |cbs|
  {
    if |cbs| == 0 then [] else Receipts(ev, cbs[..|cbs| - 1]) + [Receipt(cbs[|cbs| - 1], ev)]
  }

  ghost function LogOf(rounds: seq<Round>): (r: seq<Receipt>) {
    if |rounds| == 0 then []
    else LogOf(rounds[..|rounds| - 1]) + Receipts(rounds[|rounds| - 1].ev, rounds[|rounds| - 1].cbs)
  }

  ghost function FramePartial(f: Frame): (r: seq<Receipt>) {
    if f.Calling? && f.next <= |f.cbs| then Receipts(f.ev, f.cbs[..f.next]) else []
  }

  /** The callbacks entered for the event in flight. */
  ghost function Partial(owner: Owner, m: Stacks): (r: seq<Receipt>) {
    if owner.Holder? && owner.depth < |Stack(m, owner.thread)| then FramePartial(Stack(m, owner.thread)[owner.depth])
    else []
  }

  ghost predicate FrameSound(f: Frame) {
    f.Calling? ==> f.next <= |f.cbs| && Unique(f.cbs)
  }

  ghost predicate FramesSound(m: Stacks) {
    forall t, d :: 0 <= d < |Stack(m, t)| ==> FrameSound(Stack(m, t)[d])
  }

  ghost predicate ListenersSound(listeners: seq<nat>, nextId: nat) {
    Unique(listeners) && forall i :: 0 <= i < |listeners| ==> listeners[i] <= nextId
  }

  ghost predicate RoundsSound(rounds: seq<Round>) {
    forall i :: 0 <= i < |rounds| ==> Unique(rounds[i].cbs)
  }

  /** Who holds the baton, and whose events a listener can see twice: at most one, and none. */
  ghost predicate Shape(c: Channel) {
    && Baton(c.delivering, c.owner, c.stacks) && FramesSound(c.stacks)
    && RoundsSound(c.rounds) && ListenersSound(c.listeners, c.nextId)
  }

  /** Every event queued is delivered, in flight or pending, once and in order. */
  ghost predicate Conserved(c: Channel) {
    && c.history == Delivered(c.rounds) + InFlight(c.owner, c.stacks) + c.pending
    && c.log == LogOf(c.rounds) + Partial(c.owner, c.stacks)
    && (c.pending != [] ==> c.delivering)
  }

  ghost predicate UpToDate(c: Channel) {
    && Alternating(c.boot, c.history, c.last)
    && (c.last == Reported(c) || c.moved || PollAhead(c.stacks))
  }

  ghost predicate Inv(c: Channel) {
    Shape(c) && Conserved(c) && UpToDate(c)
  }

  // ---------------------------------------------------------------- lemmas on the parts

  lemma DeliveredAppend(rounds: seq<Round>, r: Round)
    ensures Delivered(rounds + [r]) == Delivered(rounds) + [r.ev]
    ensures LogOf(rounds + [r]) == LogOf(rounds) + Receipts(r.ev, r.cbs)
  {
    assert (rounds + [r])[..|rounds|] == rounds;
  }

  lemma {:induction false} WithoutMembers(s: seq<nat>, id: nat, x: nat)
    ensures x in Without(s, id) <==> x in s && x != id
  {
    if |s| > 0 {
      WithoutMembers(s[1..], id, x);
    }
  }

  lemma {:induction false} WithoutKeeps(s: seq<nat>, id: nat, bound: nat)
    requires ListenersSound(s, bound)
    ensures ListenersSound(Without(s, id), bound)
  {
    if |s| > 0 {
      assert Unique(s[1..]);
      WithoutKeeps(s[1..], id, bound);
      WithoutMembers(s[1..], id, s[0]);
    }
  }

  /** From `m` to `n` only the top of thread `t` changes. */
  ghost predicate OnlyTop(m: Stacks, n: Stacks, t: nat) {
    && Busy(m, t) && |Stack(m, t)| - 1 <= |Stack(n, t)| <= |Stack(m, t)|
    && (forall u :: u != t ==> Stack(n, u) == Stack(m, u))
    && (forall k :: 0 <= k < |Stack(m, t)| - 1 ==> Stack(n, t)[k] == Stack(m, t)[k])
  }

  lemma PollStays(m: Stacks, n: Stacks, t: nat)
    requires OnlyTop(m, n, t) && !Top(m, t).Polling?
    ensures PollAhead(m) ==> PollAhead(n)
  {
    if PollAhead(m) {
      var u, k :| 0 <= k < |Stack(m, u)| && Stack(m, u)[k].Polling?;
      assert Stack(n, u)[k].Polling?;
    }
  }

  lemma FramesStaySound(m: Stacks, n: Stacks, t: nat)
    requires OnlyTop(m, n, t) && FramesSound(m)
    requires |Stack(n, t)| == |Stack(m, t)| ==> FrameSound(Top(n, t))
    ensures FramesSound(n) && FrameSound(Top(m, t))
  {
    hide FrameSound;
    assert FrameSound(Stack(m, t)[|Stack(m, t)| - 1]);
    forall u, k | 0 <= k < |Stack(n, u)|
      ensures FrameSound(Stack(n, u)[k])
    {
      assert u != t ==> Stack(n, u)[k] == Stack(m, u)[k];
    }
  }

  /** The activation on top holds the baton and keeps it. */
  lemma BatonKept(delivering: bool, owner: Owner, m: Stacks, n: Stacks, t: nat)
    requires Baton(delivering, owner, m) && OnlyTop(m, n, t) && |Stack(n, t)| == |Stack(m, t)|
    requires Draining(Top(m, t)) && Draining(Top(n, t))
    ensures Baton(delivering, owner, n) && delivering && owner == Holder(t, |Stack(m, t)| - 1)
  {
    var top := |Stack(m, t)| - 1;
    assert Draining(Stack(m, t)[top]);
    forall u, k | 0 <= k < |Stack(n, u)|
      ensures Draining(Stack(n, u)[k]) <==> owner == Holder(u, k)
    {
      assert (u != t || k < top) ==> Stack(n, u)[k] == Stack(m, u)[k];
    }
  }

  /** A frame that does not hold the baton leaves. */
  lemma BatonElsewhere(delivering: bool, owner: Owner, m: Stacks, n: Stacks, t: nat)
    requires Baton(delivering, owner, m) && OnlyTop(m, n, t) && |Stack(n, t)| == |Stack(m, t)| - 1
    requires !Draining(Top(m, t))
    ensures Baton(delivering, owner, n) && InFlight(owner, n) == InFlight(owner, m) && Partial(owner, n) == Partial(owner, m)
  {
    assert !Draining(Stack(m, t)[|Stack(m, t)| - 1]);
    forall u, k | 0 <= k < |Stack(n, u)|
      ensures Draining(Stack(n, u)[k]) <==> owner == Holder(u, k)
    {
      assert Stack(n, u)[k] == Stack(m, u)[k];
    }
  }

  lemma BatonTaken(owner: Owner, m: Stacks, n: Stacks, t: nat)
    requires Baton(false, owner, m) && OnlyTop(m, n, t) && |Stack(n, t)| == |Stack(m, t)| && Top(n, t).Fetching?
    ensures var o := Holder(t, |Stack(m, t)| - 1);
      Baton(true, o, n) && InFlight(o, n) == InFlight(owner, m) == [] && Partial(o, n) == Partial(owner, m) == []
  {
    var top := |Stack(m, t)| - 1;
    forall u, k | 0 <= k < |Stack(n, u)|
      ensures Draining(Stack(n, u)[k]) <==> Holder(t, top) == Holder(u, k)
    {
      assert (u != t || k < top) ==> Stack(n, u)[k] == Stack(m, u)[k];
    }
  }

  lemma BatonReturned(owner: Owner, m: Stacks, n: Stacks, t: nat)
    requires Baton(true, owner, m) && OnlyTop(m, n, t) && |Stack(n, t)| == |Stack(m, t)| - 1 && Top(m, t).Fetching?
    ensures Baton(false, Nobody, n) && InFlight(owner, m) == [] && Partial(owner, m) == []
  {
    assert Draining(Stack(m, t)[|Stack(m, t)| - 1]);
    forall u, k | 0 <= k < |Stack(n, u)|
      ensures !Draining(Stack(n, u)[k])
    {
      assert Stack(n, u)[k] == Stack(m, u)[k];
    }
  }

  lemma PushedParts(delivering: bool, owner: Owner, m: Stacks, t: nat)
    requires Baton(delivering, owner, m) && FramesSound(m)
    ensures var n := Pushed(m, t, Polling);
      && Baton(delivering, owner, n) && FramesSound(n) && PollAhead(n)
      && InFlight(owner, n) == InFlight(owner, m) && Partial(owner, n) == Partial(owner, m)
  {
    hide FrameFlight, FramePartial;
    var n := Pushed(m, t, Polling);
    assert Stack(n, t)[|Stack(m, t)|].Polling?;
    assert forall u, k :: 0 <= k < |Stack(m, u)| ==> Stack(n, u)[k] == Stack(m, u)[k];
  }

  /** What holds of the stacks when the activation on top, which has the baton, becomes `f`. */
  lemma OwnerSteps(delivering: bool, owner: Owner, m: Stacks, t: nat, f: Frame)
    requires Baton(delivering, owner, m) && FramesSound(m)
    requires Busy(m, t) && Draining(Top(m, t)) && Draining(f)
    requires FrameSound(Top(m, t)) ==> FrameSound(f)
    ensures var n := Replaced(m, t, f);
      && delivering && Baton(delivering, owner, n) && FramesSound(n) && (PollAhead(m) ==> PollAhead(n))
      && InFlight(owner, n) == FrameFlight(f) && Partial(owner, n) == FramePartial(f)
    ensures InFlight(owner, m) == FrameFlight(Top(m, t)) && Partial(owner, m) == FramePartial(Top(m, t))
    ensures FrameSound(Top(m, t))
  {
    hide FrameFlight, FramePartial, FrameSound;
    var n := Replaced(m, t, f);
    assert OnlyTop(m, n, t);
    assert FrameSound(Stack(m, t)[|Stack(m, t)| - 1]);
    FramesStaySound(m, n, t);
    PollStays(m, n, t);
    BatonKept(delivering, owner, m, n, t);
  }

  /** What holds of the stacks when a polling activation leaves. */
  lemma PollLeaves(delivering: bool, owner: Owner, m: Stacks, t: nat)
    requires Baton(delivering, owner, m) && FramesSound(m) && Busy(m, t) && Top(m, t).Polling?
    ensures var n := Popped(m, t);
      && Baton(delivering, owner, n) && FramesSound(n)
      && InFlight(owner, n) == InFlight(owner, m) && Partial(owner, n) == Partial(owner, m)
  {
    var n := Popped(m, t);
    assert OnlyTop(m, n, t);
    FramesStaySound(m, n, t);
    BatonElsewhere(delivering, owner, m, n, t);
  }

  /** What holds of the stacks when a polling activation takes the free baton. */
  lemma PollTakes(owner: Owner, m: Stacks, t: nat)
    requires Baton(false, owner, m) && FramesSound(m) && Busy(m, t) && Top(m, t).Polling?
    ensures var n, o := Replaced(m, t, Fetching), Holder(t, |Stack(m, t)| - 1);
      && Baton(true, o, n) && FramesSound(n)
      && InFlight(o, n) == InFlight(owner, m) && Partial(o, n) == Partial(owner, m)
  {
    var n := Replaced(m, t, Fetching);
    assert OnlyTop(m, n, t);
    FramesStaySound(m, n, t);
    BatonTaken(owner, m, n, t);
  }

  /** What holds of the stacks when the owner hands the baton back. */
  lemma OwnerLeaves(delivering: bool, owner: Owner, m: Stacks, t: nat)
    requires Baton(delivering, owner, m) && FramesSound(m) && Busy(m, t) && Top(m, t).Fetching?
    ensures var n := Popped(m, t);
      && Baton(false, Nobody, n) && FramesSound(n) && (PollAhead(m) ==> PollAhead(n))
      && InFlight(Nobody, n) == InFlight(owner, m) && Partial(Nobody, n) == Partial(owner, m)
  {
    var n := Popped(m, t);
    assert OnlyTop(m, n, t);
    FramesStaySound(m, n, t);
    PollStays(m, n, t);
    assert Draining(Stack(m, t)[|Stack(m, t)| - 1]);
    BatonReturned(owner, m, n, t);
  }

  lemma QueueKeeps(boot: State, history: seq<State>, last: State, r: State)
    requires Alternating(boot, history, last) && last != r
    ensures Alternating(boot, history + [r], r)
  {
    assert forall i :: 0 <= i <= |history| ==> Before(boot, history + [r], i) == Before(boot, history, i);
  }

  // ---------------------------------------------------------------- every step keeps the invariant

  lemma PushKeeps(c: Channel, t: nat, raw: State)
    requires Inv(c)
    ensures Inv(c.(raw := raw, stacks := Pushed(c.stacks, t, Polling)))
  {
    hide Baton, FramesSound, RoundsSound, ListenersSound, InFlight, Partial, Alternating, Popped, Replaced, Pushed, PollAhead;
    PushedParts(c.delivering, c.owner, c.stacks, t);
  }

  lemma SectionKeeps(c: Channel, t: nat)
    requires Inv(c) && Enabled(c, Section(t))
    ensures Inv(SectionStep(c, t))
  {
    hide Baton, FramesSound, RoundsSound, ListenersSound, InFlight, Partial, Alternating, Popped, Replaced, Pushed, PollAhead;
    if c.last != Reported(c) {
      QueueKeeps(c.boot, c.history, c.last, Reported(c));
      assert (c.history + [Reported(c)]) == Delivered(c.rounds) + InFlight(c.owner, c.stacks) + (c.pending + [Reported(c)]);
    }
    if c.last != Reported(c) && !c.delivering {
      PollTakes(c.owner, c.stacks, t);
    } else {
      PollLeaves(c.delivering, c.owner, c.stacks, t);
    }
  }

  lemma TakeKeeps(c: Channel, t: nat)
    requires Inv(c) && Enabled(c, Take(t))
    ensures Inv(TakeStep(c, t))
  {
    hide Baton, FramesSound, RoundsSound, ListenersSound, InFlight, Partial, Alternating, Popped, Replaced, Pushed, PollAhead;
    if c.pending == [] {
      OwnerLeaves(c.delivering, c.owner, c.stacks, t);
    } else {
      OwnerSteps(c.delivering, c.owner, c.stacks, t, Copying(c.pending[0]));
      assert c.pending == [c.pending[0]] + c.pending[1..];
    }
  }

  lemma CopyKeeps(c: Channel, t: nat)
    requires Inv(c) && Enabled(c, Copy(t))
    ensures Inv(Step(c, Copy(t)))
  {
    hide Baton, FramesSound, RoundsSound, InFlight, Partial, Alternating, Popped, Replaced, Pushed, PollAhead;
    OwnerSteps(c.delivering, c.owner, c.stacks, t, Calling(Top(c.stacks, t).ev, c.listeners, 0));
  }

  lemma CallKeeps(c: Channel, t: nat)
    requires Inv(c) && Enabled(c, Call(t))
    ensures Inv(CallStep(c, t))
  {
    hide Baton, FramesSound, RoundsSound, ListenersSound, InFlight, Partial, Alternating, Popped, Replaced, Pushed, PollAhead;
    var f := Top(c.stacks, t);
    OwnerSteps(c.delivering, c.owner, c.stacks, t, f.(next := f.next + 1));
    assert f.cbs[..f.next + 1][..f.next] == f.cbs[..f.next];
  }

  lemma FinishKeeps(c: Channel, t: nat)
    requires Inv(c) && Enabled(c, Finish(t))
    ensures Inv(FinishStep(c, t))
  {
    hide Baton, FramesSound, RoundsSound, ListenersSound, InFlight, Partial, Alternating, Replaced, PollAhead;
    hide Delivered, LogOf, Receipts, Unique;
    var f := Top(c.stacks, t);
    OwnerSteps(c.delivering, c.owner, c.stacks, t, Fetching);
    assert f.cbs[..f.next] == f.cbs;
    DeliveredAppend(c.rounds, Round(f.ev, f.cbs));
    RoundAppended(c.rounds, Round(f.ev, f.cbs));
  }

  lemma RoundAppended(rounds: seq<Round>, r: Round)
    requires RoundsSound(rounds) && Unique(r.cbs)
    ensures RoundsSound(rounds + [r])
  {
  }

  lemma ListenersKeep(c: Channel, l: seq<nat>, n: nat)
    requires Inv(c) && ListenersSound(l, n)
    ensures Inv(c.(listeners := l, nextId := n))
  {
    hide Baton, FramesSound, RoundsSound, ListenersSound, InFlight, Partial, Alternating, PollAhead;
  }

  lemma SubscribeKeeps(c: Channel)
    requires Inv(c)
    ensures Inv(Step(c, Subscribe))
  {
    hide Baton, FramesSound, RoundsSound, InFlight, Partial, Alternating, PollAhead;
    FreshListener(c.listeners, c.nextId);
    hide Inv, ListenersSound;
    ListenersKeep(c, c.listeners + [c.nextId + 1], c.nextId + 1);
  }

  lemma FreshListener(l: seq<nat>, n: nat)
    requires ListenersSound(l, n)
    ensures ListenersSound(l + [n + 1], n + 1)
  {
  }

  lemma UnsubscribeKeeps(c: Channel, id: nat)
    requires Inv(c)
    ensures Inv(Step(c, Unsubscribe(id)))
  {
    WithoutKeeps(c.listeners, id, c.nextId);
    hide Inv, ListenersSound;
    ListenersKeep(c, Without(c.listeners, id), c.nextId);
  }

  lemma MoveKeeps(c: Channel, u: bool)
    requires Inv(c)
    ensures Inv(Step(c, Move(u)))
  {
    hide Baton, FramesSound, RoundsSound, ListenersSound, InFlight, Partial, Alternating, PollAhead;
  }

  lemma StepKeeps(c: Channel, a: Action)
    requires Inv(c) && Enabled(c, a)
    ensures Inv(Step(c, a))
  {
    hide Inv, SectionStep, TakeStep, CallStep, FinishStep;
    match a
    case SetState(t, s) => PushKeeps(c, t, s);
    case Poll(t) => PushKeeps(c, t, c.raw);
    case Move(u) => MoveKeeps(c, u);
    case Section(t) => SectionKeeps(c, t);
    case Take(t) => TakeKeeps(c, t);
    case Copy(t) => CopyKeeps(c, t);
    case Call(t) => CallKeeps(c, t);
    case Finish(t) => FinishKeeps(c, t);
    case Subscribe => SubscribeKeeps(c);
    case Unsubscribe(id) => UnsubscribeKeeps(c, id);
  }

  lemma {:induction false} RunKeeps(c: Channel, run: seq<Action>)
    requires Inv(c) && Legal(c, run)
    ensures Inv(End(c, run))
    decreases |run|
  {
    hide Inv, Step;
    if |run| > 0 {
      StepKeeps(c, run[0]);
      RunKeeps(Step(c, run[0]), run[1..]);
    }
  }

  lemma BootKeeps(raw: State, untrusted: bool)
    ensures Inv(Booted(raw, untrusted))
  {
  }

  // ---------------------------------------------------------------- theorems

  /** The activation at depth `d` of thread `t` holds the baton. */
  ghost predicate Drains(m: Stacks, t: nat, d: nat) {
    d < |Stack(m, t)| && Draining(Stack(m, t)[d])
  }

  /** Wherever a run of any threads leads: one drainer, nothing stranded, no event lost, doubled or reordered. */
  lemma EveryRun(raw: State, untrusted: bool, run: seq<Action>)
    requires Legal(Booted(raw, untrusted), run)
    ensures var c := End(Booted(raw, untrusted), run);
      && (forall t, d, u, e :: Drains(c.stacks, t, d) && Drains(c.stacks, u, e) ==> t == u && d == e)
      && (c.pending != [] ==> c.delivering && c.owner.Holder? && Busy(c.stacks, c.owner.thread))
      && c.history == Delivered(c.rounds) + InFlight(c.owner, c.stacks) + c.pending
      && (forall i :: 0 < i < |c.history| ==> c.history[i - 1] != c.history[i])
  {
    BootKeeps(raw, untrusted);
    RunKeeps(Booted(raw, untrusted), run);
    hide Legal, End, Booted;
    var c := End(Booted(raw, untrusted), run);
    forall i | 0 < i < |c.history|
      ensures c.history[i - 1] != c.history[i]
    {
      assert Before(c.boot, c.history, i) == c.history[i - 1];
    }
  }

  /** No thread is inside the client. */
  ghost predicate Quiet(c: Channel) {
    forall t :: !Busy(c.stacks, t)
  }

  /** At quiescence all events are out, and the last one is `state()` unless the clock moved after it. */
  lemma AtQuiescence(raw: State, untrusted: bool, run: seq<Action>)
    requires Legal(Booted(raw, untrusted), run) && Quiet(End(Booted(raw, untrusted), run))
    ensures var c := End(Booted(raw, untrusted), run);
      && !c.delivering && c.pending == [] && c.history == Delivered(c.rounds)
      && c.log == LogOf(c.rounds)
      && (!c.moved ==> c.last == Reported(c))
  {
    BootKeeps(raw, untrusted);
    RunKeeps(Booted(raw, untrusted), run);
    hide Legal, End, Booted;
    var c := End(Booted(raw, untrusted), run);
    assert c.owner.Holder? ==> Busy(c.stacks, c.owner.thread);
    PollIsBusy(c.stacks);
  }

  lemma PollIsBusy(m: Stacks)
    ensures PollAhead(m) ==> exists t :: Busy(m, t)
  {
    if PollAhead(m) {
      var t, d :| 0 <= d < |Stack(m, t)| && Stack(m, t)[d].Polling?;
      assert Busy(m, t);
    }
  }

  // ---------------------------------------------------------------- what one listener sees

  /** The events listener `id` was called with, in order. */
  ghost function Received(log: seq<Receipt>, id: nat): (s: seq<State>) {
    if |log| == 0 then []
    else Received(log[..|log| - 1], id) + (if log[|log| - 1].listener == id then [log[|log| - 1].ev] else [])
  }

  lemma {:induction false} ReceivedConcat(a: seq<Receipt>, b: seq<Receipt>, id: nat)
    ensures Received(a + b, id) == Received(a, id) + Received(b, id)
  {
    if |b| == 0 {
      assert a + b == a;
    } else {
      assert (a + b)[..|a + b| - 1] == a + b[..|b| - 1];
      ReceivedConcat(a, b[..|b| - 1], id);
    }
  }

  lemma {:induction false} ReceivedOnce(ev: State, cbs: seq<nat>, id: nat)
    requires Unique(cbs)
    ensures Received(Receipts(ev, cbs), id) == if id in cbs then [ev] else []
  {
    if |cbs| > 0 {
      var n := |cbs| - 1;
      ReceivedOnce(ev, cbs[..n], id);
      assert cbs == cbs[..n] + [cbs[n]];
      assert Receipts(ev, cbs)[..n] == Receipts(ev, cbs[..n]);
    }
  }

  /** From round `k` on every round included `id`. */
  ghost predicate InRounds(rounds: seq<Round>, k: nat, id: nat) {
    forall i :: k <= i < |rounds| ==> id in rounds[i].cbs
  }

  /** A listener in every round is called with every event, once each and in order. */
  lemma {:induction false} ReceivedAll(rounds: seq<Round>, k: nat, id: nat)
    requires RoundsSound(rounds) && k <= |rounds| && InRounds(rounds, k, id)
    ensures Received(LogOf(rounds), id) == Received(LogOf(rounds[..k]), id) + Delivered(rounds)[k..]
    decreases |rounds|
  {
    if |rounds| == k {
      assert rounds[..k] == rounds;
    } else {
      var n := |rounds| - 1;
      var r := rounds[n];
      assert LogOf(rounds) == LogOf(rounds[..n]) + Receipts(r.ev, r.cbs);
      assert Delivered(rounds) == Delivered(rounds[..n]) + [r.ev];
      hide LogOf, Delivered, Receipts, Received, Unique;
      assert Unique(rounds[n].cbs) && id in rounds[n].cbs;
      assert rounds[..n][..k] == rounds[..k];
      ReceivedAll(rounds[..n], k, id);
      ReceivedConcat(LogOf(rounds[..n]), Receipts(r.ev, r.cbs), id);
      ReceivedOnce(r.ev, r.cbs, id);
    }
  }

  ghost predicate FramesInclude(m: Stacks, id: nat) {
    forall t, d :: 0 <= d < |Stack(m, t)| && Stack(m, t)[d].Calling? ==> id in Stack(m, t)[d].cbs
  }

  /** `id` is subscribed, and was at every copy since round `k`. */
  ghost predicate Included(c: Channel, k: nat, id: nat) {
    id in c.listeners && InRounds(c.rounds, k, id) && FramesInclude(c.stacks, id)
  }

  lemma FramesIncludeTop(m: Stacks, t: nat, f: Frame, id: nat)
    requires FramesInclude(m, id) && (f.Calling? ==> id in f.cbs)
    ensures FramesInclude(Pushed(m, t, f), id)
    ensures Busy(m, t) ==> FramesInclude(Replaced(m, t, f), id) && FramesInclude(Popped(m, t), id)
    ensures Busy(m, t) && Top(m, t).Calling? ==> id in Top(m, t).cbs
  {
    var n := Pushed(m, t, f);
    assert forall u, k :: 0 <= k < |Stack(m, u)| ==> Stack(n, u)[k] == Stack(m, u)[k];
    if Busy(m, t) {
      assert Stack(m, t)[|Stack(m, t)| - 1] == Top(m, t);
      var top := |Stack(m, t)| - 1;
      var r, p := Replaced(m, t, f), Popped(m, t);
      assert forall u, k :: 0 <= k < |Stack(m, u)| && (u != t || k < top) ==> Stack(r, u)[k] == Stack(m, u)[k];
      assert forall u, k :: 0 <= k < |Stack(p, u)| ==> Stack(p, u)[k] == Stack(m, u)[k];
    }
  }

  lemma StepKeepsIncluded(c: Channel, a: Action, k: nat, id: nat)
    requires Included(c, k, id) && Enabled(c, a) && a != Unsubscribe(id)
    ensures Included(Step(c, a), k, id)
  {
    hide FramesInclude, Pushed, Popped, Replaced;
    match a
    case SetState(t, _) => FramesIncludeTop(c.stacks, t, Polling, id);
    case Poll(t) => FramesIncludeTop(c.stacks, t, Polling, id);
    case Section(t) => FramesIncludeTop(c.stacks, t, Fetching, id);
    case Take(t) => FramesIncludeTop(c.stacks, t, if c.pending == [] then Fetching else Copying(c.pending[0]), id);
    case Copy(t) => FramesIncludeTop(c.stacks, t, Calling(Top(c.stacks, t).ev, c.listeners, 0), id);
    case Call(t) =>
      FramesIncludeTop(c.stacks, t, Fetching, id);
      FramesIncludeTop(c.stacks, t, Top(c.stacks, t).(next := Top(c.stacks, t).next + 1), id);
    case Finish(t) => FramesIncludeTop(c.stacks, t, Fetching, id);
    case Unsubscribe(x) => WithoutMembers(c.listeners, x, id);
    case _ =>
  }

  lemma {:induction false} RunKeepsIncluded(c: Channel, run: seq<Action>, k: nat, id: nat)
    requires Included(c, k, id) && Legal(c, run) && Unsubscribe(id) !in run
    ensures Included(End(c, run), k, id) && |End(c, run).rounds| >= |c.rounds|
    ensures End(c, run).rounds[..|c.rounds|] == c.rounds
    decreases |run|
  {
    hide Included;
    if |run| > 0 {
      StepKeepsIncluded(c, run[0], k, id);
      var d := Step(c, run[0]);
      RunKeepsIncluded(d, run[1..], k, id);
      assert c.rounds <= d.rounds;
      assert End(d, run[1..]).rounds[..|d.rounds|][..|c.rounds|] == c.rounds;
    }
  }

  /**
   * A listener subscribed from one quiet moment to another is called with exactly the events
   * queued in between, each once and in the order they were queued.
   */
  lemma ListenerSeesEverything(raw: State, untrusted: bool, first: seq<Action>, run: seq<Action>, id: nat)
    requires Legal(Booted(raw, untrusted), first)
    requires var b := End(Booted(raw, untrusted), first);
      Quiet(b) && id in b.listeners && Legal(b, run) && Quiet(End(b, run)) && Unsubscribe(id) !in run
    ensures var b := End(Booted(raw, untrusted), first);
      var c := End(b, run);
      && |b.history| <= |c.history|
      && Received(c.log, id) == Received(b.log, id) + c.history[|b.history|..]
  {
    var start := Booted(raw, untrusted);
    var b := End(start, first);
    BootKeeps(raw, untrusted);
    RunKeeps(start, first);
    RunKeeps(b, run);
    AtQuiescence(raw, untrusted, first);
    QuietMeans(End(b, run));
    hide Inv, Legal, End, Booted;
    RunKeepsIncluded(b, run, |b.rounds|, id);
    RoundsOf(End(b, run));
    ReceivedAll(End(b, run).rounds, |b.rounds|, id);
  }

  lemma RoundsOf(c: Channel)
    requires Inv(c)
    ensures RoundsSound(c.rounds)
  {
  }

  lemma QuietMeans(c: Channel)
    requires Inv(c) && Quiet(c)
    ensures c.history == Delivered(c.rounds) && c.log == LogOf(c.rounds)
  {
    assert c.owner.Holder? ==> Busy(c.stacks, c.owner.thread);
  }

  // ---------------------------------------------------------------- progress

  /** The step a busy thread takes next; it never waits for another thread. */
  function Own(c: Channel, t: nat): (a: Action)
    requires Busy(c.stacks, t)
    ensures Enabled(c, a)
  {
    match Top(c.stacks, t)
    case Polling => Section(t)
    case Fetching => Take(t)
    case Copying(_) => Copy(t)
    case Calling(_, cbs, n) => if n < |cbs| then Call(t) else Finish(t)
  }

  ghost function Polls(s: seq<Frame>): (n: nat) {
    if |s| == 0 then 0 else Polls(s[..|s| - 1]) + (if s[|s| - 1].Polling? then 1 else 0)
  }

  ghost function Rank(c: Channel, t: nat): (n: nat)
    requires Busy(c.stacks, t)
  {
    match Top(c.stacks, t)
    case Polling => 0
    case Fetching => 0
    case Copying(_) => |c.listeners| + 2
    case Calling(_, cbs, n) => if n < |cbs| then |cbs| - n + 1 else 1
  }

  lemma PollsTop(m: Stacks, t: nat, f: Frame)
    requires Busy(m, t)
    ensures Polls(Stack(Popped(m, t), t)) == Polls(Stack(m, t)) - if Top(m, t).Polling? then 1 else 0
    ensures !f.Polling? ==> Polls(Stack(Replaced(m, t, f), t)) == Polls(Stack(Popped(m, t), t))
    ensures |Stack(Popped(m, t), t)| == |Stack(m, t)| - 1 && |Stack(Replaced(m, t, f), t)| == |Stack(m, t)|
    ensures Top(Replaced(m, t, f), t) == f
  {
    var n := |Stack(m, t)| - 1;
    assert Stack(Replaced(m, t, f), t)[..n] == Stack(m, t)[..n] == Stack(Popped(m, t), t);
  }

  /** With no new call, what a thread still has to do shrinks at each of its steps. */
  lemma OwnDecreases(c: Channel, t: nat)
    requires Busy(c.stacks, t)
    ensures var d := Step(c, Own(c, t));
      var s, u := Stack(c.stacks, t), Stack(d.stacks, t);
      || Polls(u) < Polls(s)
      || (Polls(u) == Polls(s) && |d.pending| < |c.pending|)
      || (Polls(u) == Polls(s) && |d.pending| == |c.pending| && |u| < |s|)
      || (Polls(u) == Polls(s) && |d.pending| == |c.pending| && |u| == |s| && Rank(d, t) < Rank(c, t))
  {
    hide Stack, Polls, Popped, Replaced, Reported;
    var f := Top(c.stacks, t);
    var m, d := c.stacks, Step(c, Own(c, t));
    match f {
      case Polling =>
        PollsTop(m, t, Fetching);
        assert d.stacks == Popped(m, t) || d.stacks == Replaced(m, t, Fetching);
      case Fetching =>
        PollsTop(m, t, if c.pending == [] then Fetching else Copying(c.pending[0]));
      case Copying(ev) =>
        PollsTop(m, t, Calling(ev, c.listeners, 0));
        assert d.stacks == Replaced(m, t, Calling(ev, c.listeners, 0)) && d.pending == c.pending;
      case Calling(_, cbs, n) =>
        var g := if n < |cbs| then f.(next := n + 1) else Fetching;
        PollsTop(m, t, g);
        assert d.stacks == Replaced(m, t, g) && d.pending == c.pending;
    }
  }

  predicate OwnStep(a: Action, t: nat) {
    a in {Section(t), Take(t), Copy(t), Call(t), Finish(t)}
  }

  /**
   * Left to itself, a thread inside the client comes out again: the queue it drains empties, and
   * the baton it holds goes back.
   */
  lemma {:induction false} ThreadComesOut(c: Channel, t: nat) returns (run: seq<Action>)
    ensures Legal(c, run) && !Busy(End(c, run).stacks, t)
    ensures forall k :: 0 <= k < |run| ==> OwnStep(run[k], t)
    decreases Polls(Stack(c.stacks, t)), |c.pending|, |Stack(c.stacks, t)|, if Busy(c.stacks, t) then Rank(c, t) else 0
  {
    if !Busy(c.stacks, t) {
      run := [];
    } else {
      OwnDecreases(c, t);
      assert OwnStep(Own(c, t), t);
      hide Step, Polls, Rank, Own, Stack, Enabled, OwnStep;
      var d := Step(c, Own(c, t));
      var rest := ThreadComesOut(d, t);
      run := [Own(c, t)] + rest;
      assert run[0] == Own(c, t) && run[1..] == rest;
    }
  }

  /** A thread's own steps leave the other threads, the state and the clock alone. */
  lemma OwnStepKeeps(c: Channel, a: Action, t: nat)
    requires OwnStep(a, t) && Enabled(c, a) && (forall u :: u != t ==> !Busy(c.stacks, u))
    ensures var d := Step(c, a);
      && (forall u :: u != t ==> !Busy(d.stacks, u))
      && d.raw == c.raw && d.untrusted == c.untrusted && (!c.moved ==> !d.moved)
  {
    var d := Step(c, a);
    forall u | u != t
      ensures !Busy(d.stacks, u)
    {
      assert !Busy(c.stacks, u);
    }
  }

  lemma {:induction false} OwnRunKeeps(c: Channel, run: seq<Action>, t: nat)
    requires Legal(c, run) && (forall k :: 0 <= k < |run| ==> OwnStep(run[k], t))
    requires forall u :: u != t ==> !Busy(c.stacks, u)
    ensures var d := End(c, run);
      && (forall u :: u != t ==> !Busy(d.stacks, u))
      && d.raw == c.raw && d.untrusted == c.untrusted && (!c.moved ==> !d.moved)
    decreases |run|
  {
    hide Step, Enabled, Busy, OwnStep;
    if |run| > 0 {
      assert OwnStep(run[0], t);
      OwnStepKeeps(c, run[0], t);
      OwnRunKeeps(Step(c, run[0]), run[1..], t);
    }
  }

  /** Whatever the clock did meanwhile, one poll from outside brings the last event up to date with state(). */
  lemma NextPollTells(c: Channel, t: nat) returns (run: seq<Action>)
    requires Inv(c) && Quiet(c)
    ensures Legal(c, [Poll(t), Section(t)] + run)
    ensures var d := End(c, [Poll(t), Section(t)] + run);
      Quiet(d) && Reported(d) == Reported(c) && d.last == Reported(d) && d.history == Delivered(d.rounds)
  {
    var b := Step(c, Poll(t));
    var d := Step(b, Section(t));
    PollThenSection(c, t);
    hide Step, Enabled, Inv, Legal, End, Quiet, Reported;
    run := ThreadComesOut(d, t);
    OwnRunKeeps(d, run, t);
    RunKeeps(d, run);
    TwoFirst(c, Poll(t), Section(t), run);
    QuietAgain(End(d, run), t);
    UpToDateWhenQuiet(End(d, run));
    SameReport(c, End(d, run));
  }

  lemma PollThenSection(c: Channel, t: nat)
    requires Inv(c) && Quiet(c)
    ensures Enabled(c, Poll(t)) && Enabled(Step(c, Poll(t)), Section(t))
    ensures var d := Step(Step(c, Poll(t)), Section(t));
      && Inv(d) && d.raw == c.raw && d.untrusted == c.untrusted && !d.moved
      && (forall u :: u != t ==> !Busy(d.stacks, u))
  {
    var b := Step(c, Poll(t));
    PollAlone(c, t);
    StepKeeps(c, Poll(t));
    SectionAlone(b, t);
    hide Step, Enabled, Inv;
    StepKeeps(b, Section(t));
  }

  lemma PollAlone(c: Channel, t: nat)
    requires Quiet(c)
    ensures Enabled(c, Poll(t)) && Enabled(Step(c, Poll(t)), Section(t))
    ensures var b := Step(c, Poll(t));
      b.raw == c.raw && b.untrusted == c.untrusted && (forall u :: u != t ==> !Busy(b.stacks, u))
  {
    assert !Busy(c.stacks, t);
    var b := Step(c, Poll(t));
    assert Stack(b.stacks, t) == [Polling];
    forall u | u != t
      ensures !Busy(b.stacks, u)
    {
      assert !Busy(c.stacks, u);
    }
  }

  lemma SectionAlone(b: Channel, t: nat)
    requires Enabled(b, Section(t)) && forall u :: u != t ==> !Busy(b.stacks, u)
    ensures var d := Step(b, Section(t));
      && d.raw == b.raw && d.untrusted == b.untrusted && !d.moved
      && (forall u :: u != t ==> !Busy(d.stacks, u))
  {
    var d := Step(b, Section(t));
    forall u | u != t
      ensures !Busy(d.stacks, u)
    {
      assert !Busy(b.stacks, u);
    }
  }

  lemma QuietAgain(c: Channel, t: nat)
    requires !Busy(c.stacks, t) && forall u :: u != t ==> !Busy(c.stacks, u)
    ensures Quiet(c)
  {
  }

  lemma SameReport(c: Channel, d: Channel)
    requires c.raw == d.raw && c.untrusted == d.untrusted
    ensures Reported(c) == Reported(d)
  {
  }

  lemma TwoFirst(c: Channel, a: Action, b: Action, run: seq<Action>)
    requires Enabled(c, a) && Enabled(Step(c, a), b) && Legal(Step(Step(c, a), b), run)
    ensures Legal(c, [a, b] + run) && End(c, [a, b] + run) == End(Step(Step(c, a), b), run)
  {
    hide Step, Enabled;
    var r := [a, b] + run;
    assert r[0] == a && r[1..] == [b] + run && ([b] + run)[0] == b && ([b] + run)[1..] == run;
  }

  lemma UpToDateWhenQuiet(c: Channel)
    requires Inv(c) && Quiet(c) && !c.moved
    ensures c.last == Reported(c) && c.history == Delivered(c.rounds)
  {
    PollIsBusy(c.stacks);
    QuietMeans(c);
  }
}
