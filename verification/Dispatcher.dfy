/** The bounded asynchronous notification dispatcher (notify/notify.go).

    Every goroutine is a thread of the model: a dispatch call together with the delivery it spawns, a
    Shutdown call, or a Wait call.  Each operation on the mutex, the slot channel, the in-flight counter
    and the wait group is one step, and the steps of all threads interleave freely. */
module Dispatcher {

  /** A dispatch call up to the goroutine's last statement.  Locked..Counted and Rejecting hold the
      mutex; the release order is slot, then counter, then wait group. */
  datatype CallPhase =
    | Arriving | Locked | Open | SlotTaken | WgAdded | Counted
    | Accepted | Sending | Sent | SlotFreed | Uncounted | Finished
    | Rejecting | Dropped

  datatype ClosePhase = CloseArriving | CloseLocked | ClosedSet | Draining | Drained | Late | Returned(abandoned: int)

  datatype WaitPhase = Acquiring(held: nat) | Giving(left: nat, full: bool) | WaitDone(full: bool)

  datatype Thread = Call(call: CallPhase) | Closer(close: ClosePhase) | Waiter(wait: WaitPhase)

  datatype State = State(
    cap: nat,
    slots: nat,
    closed: bool,
    wg: int,
    inflight: int,
    holder: int,
    threads: seq<Thread>)

  /** NewDispatcher's capacity. */
  function Capacity(maxInFlight: int): (cap: nat)
    ensures cap > 0
  {
    if maxInFlight <= 0 then 64 else maxInFlight
  }

  const NOBODY: int := -1

  function Init(maxInFlight: int): State {
    State(Capacity(maxInFlight), 0, false, 0, 0, NOBODY, [])
  }

  /** `Spawn` starts a call of the given kind; `Advance(i, alt)` lets thread i take its next step, `alt`
      choosing the second arm of a select. */
  datatype Step = Spawn(t: Thread) | Advance(i: nat, alt: bool)

  predicate Fresh(t: Thread) {
    t in {Call(Arriving), Closer(CloseArriving), Waiter(Acquiring(0))}
  }

  predicate Enabled(s: State, step: Step) {
    match step
    case Spawn(t) => Fresh(t)
    case Advance(i, alt) =>
      i < |s.threads| &&
      match s.threads[i] {
        case Call(phase) =>
          !alt && match phase {
            case Arriving => s.holder == NOBODY
            case Sent => s.slots > 0
            case Finished => false
            case Dropped => false
            case _ => true
          }
        case Closer(phase) =>
          match phase {
            case CloseArriving => !alt && s.holder == NOBODY
            case Draining => alt || s.wg == 0  // deadline, or the wait group drained
            case Drained => true
            case Returned(_) => false
            case _ => !alt
          }
        case Waiter(phase) =>
          match phase {
            case Acquiring(held) => if alt then held < s.cap else held == s.cap || s.slots < s.cap
            case Giving(left, _) => !alt && (left > 0 ==> s.slots > 0)
            case WaitDone(_) => false
          }
      }
  }

  function Set(s: State, i: nat, t: Thread): State
    requires i < |s.threads|
  {
    s.(threads := s.threads[i := t])
  }

  function AdvanceCall(s: State, i: nat): State
    requires Enabled(s, Advance(i, false)) && s.threads[i].Call?
  {
    match s.threads[i].call
    case Arriving => Set(s, i, Call(Locked)).(holder := i)
    case Locked => Set(s, i, Call(if s.closed then Rejecting else Open))
    case Open => if s.slots < s.cap then Set(s, i, Call(SlotTaken)).(slots := s.slots + 1) else Set(s, i, Call(Rejecting))
    case SlotTaken => Set(s, i, Call(WgAdded)).(wg := s.wg + 1)
    case WgAdded => Set(s, i, Call(Counted)).(inflight := s.inflight + 1)
    case Counted => Set(s, i, Call(Accepted)).(holder := NOBODY)
    case Accepted => Set(s, i, Call(Sending))
    case Sending => Set(s, i, Call(Sent))
    case Sent => Set(s, i, Call(SlotFreed)).(slots := s.slots - 1)
    case SlotFreed => Set(s, i, Call(Uncounted)).(inflight := s.inflight - 1)
    case Uncounted => Set(s, i, Call(Finished)).(wg := s.wg - 1)
    case Rejecting => Set(s, i, Call(Dropped)).(holder := NOBODY)
  }

  function AdvanceCloser(s: State, i: nat, alt: bool): State
    requires Enabled(s, Advance(i, alt)) && s.threads[i].Closer?
  {
    match s.threads[i].close
    case CloseArriving => Set(s, i, Closer(CloseLocked)).(holder := i)
    case CloseLocked => Set(s, i, Closer(ClosedSet)).(closed := true)
    case ClosedSet => Set(s, i, Closer(Draining)).(holder := NOBODY)
    case Draining => Set(s, i, Closer(if alt then Late else Drained))
    case Drained => Set(s, i, Closer(if alt then Late else Returned(0)))
    case Late => Set(s, i, Closer(Returned(s.inflight)))
  }

  function AdvanceWaiter(s: State, i: nat, alt: bool): State
    requires Enabled(s, Advance(i, alt)) && s.threads[i].Waiter?
  {
    match s.threads[i].wait
    case Acquiring(held) =>
      if alt then Set(s, i, Waiter(Giving(held, false)))
      else if held == s.cap then Set(s, i, Waiter(Giving(held, true)))
      else Set(s, i, Waiter(Acquiring(held + 1))).(slots := s.slots + 1)
    case Giving(left, full) =>
      if left > 0 then Set(s, i, Waiter(Giving(left - 1, full))).(slots := s.slots - 1)
      else Set(s, i, Waiter(WaitDone(full)))
  }

  function Apply(s: State, step: Step): State
    requires Enabled(s, step)
  {
    match step
    case Spawn(t) => s.(threads := s.threads + [t])
    case Advance(i, alt) =>
      if s.threads[i].Call? then AdvanceCall(s, i)
      else if s.threads[i].Closer? then AdvanceCloser(s, i, alt)
      else AdvanceWaiter(s, i, alt)
  }

  predicate ValidRun(s: State, steps: seq<Step>)
    decreases |steps|
  {
    steps == [] || (Enabled(s, steps[0]) && ValidRun(Apply(s, steps[0]), steps[1..]))
  }

  function Run(s: State, steps: seq<Step>): State
    requires ValidRun(s, steps)
    decreases |steps|
  {
    if steps == [] then s else Run(Apply(s, steps[0]), steps[1..])
  }

  // ----- Sums over threads -----

  function Sum(ts: seq<Thread>, f: Thread -> nat): nat {
    if ts == [] then 0 else f(ts[0]) + Sum(ts[1..], f)
  }

  lemma {:induction false} SumUpdate(ts: seq<Thread>, i: nat, t: Thread, f: Thread -> nat)
    requires i < |ts|
    ensures Sum(ts[i := t], f) == Sum(ts, f) - f(ts[i]) + f(t)
  {
    if i > 0 {
      SumUpdate(ts[1..], i - 1, t, f);
      assert ts[i := t][1..] == ts[1..][i - 1 := t];
    } else {
      assert ts[0 := t][1..] == ts[1..];
    }
  }

  lemma {:induction false} SumAppend(ts: seq<Thread>, t: Thread, f: Thread -> nat)
    ensures Sum(ts + [t], f) == Sum(ts, f) + f(t)
  {
    if ts == [] {
      assert ts + [t] == [t];
    } else {
      SumAppend(ts[1..], t, f);
      assert (ts + [t])[1..] == ts[1..] + [t];
    }
  }

  lemma {:induction false} SumCovers(ts: seq<Thread>, i: nat, f: Thread -> nat)
    requires i < |ts|
    ensures f(ts[i]) <= Sum(ts, f)
  {
    if i > 0 {
      SumCovers(ts[1..], i - 1, f);
    }
  }

  lemma {:induction false} SumPointwise(ts: seq<Thread>, f: Thread -> nat, g: Thread -> nat)
    requires forall t :: f(t) <= g(t)
    ensures Sum(ts, f) <= Sum(ts, g)
  {
    if ts != [] {
      SumPointwise(ts[1..], f, g);
    }
  }

  lemma {:induction false} SumSplits(ts: seq<Thread>, f: Thread -> nat, g: Thread -> nat, h: Thread -> nat)
    requires forall t | t in ts :: f(t) == g(t) + h(t)
    ensures Sum(ts, f) == Sum(ts, g) + Sum(ts, h)
  {
    if ts != [] {
      SumSplits(ts[1..], f, g, h);
    }
  }

  lemma {:induction false} SumVanishes(ts: seq<Thread>, f: Thread -> nat)
    requires forall t | t in ts :: f(t) == 0
    ensures Sum(ts, f) == 0
  {
    if ts != [] {
      SumVanishes(ts[1..], f);
    }
  }

  // ----- What each thread contributes -----

  function If(b: bool): nat {
    if b then 1 else 0
  }

  function SlotsOf(t: Thread): nat {
    match t
    case Call(p) => If(p in {SlotTaken, WgAdded, Counted, Accepted, Sending, Sent})
    case Waiter(Acquiring(held)) => held
    case Waiter(Giving(left, _)) => left
    case _ => 0
  }

  function WgOf(t: Thread): nat {
    If(t.Call? && t.call in {WgAdded, Counted, Accepted, Sending, Sent, SlotFreed, Uncounted})
  }

  function InflightOf(t: Thread): nat {
    If(t.Call? && t.call in {Counted, Accepted, Sending, Sent, SlotFreed})
  }

  function SendingOf(t: Thread): nat {
    If(t == Call(Sending))
  }

  /** Deliveries that are sending or still will. */
  function UnsentOf(t: Thread): nat {
    If(t.Call? && t.call in {Accepted, Sending})
  }

  function IsCall(t: Thread): nat { If(t.Call?) }

  predicate AcceptedCall(t: Thread) {
    t.Call? && t.call !in {Arriving, Locked, Open, Rejecting, Dropped}
  }

  function IsAccepted(t: Thread): nat { If(AcceptedCall(t)) }

  function IsDropped(t: Thread): nat { If(t == Call(Dropped)) }

  function IsUndecided(t: Thread): nat { If(t.Call? && t.call in {Arriving, Locked, Open, Rejecting}) }

  function IsFinished(t: Thread): nat { If(t.Call? && t.call in {Uncounted, Finished}) }

  predicate HoldsLock(t: Thread) {
    match t
    case Call(p) => p in {Locked, Open, SlotTaken, WgAdded, Counted, Rejecting}
    case Closer(p) => p in {CloseLocked, ClosedSet}
    case Waiter(_) => false
  }

  /** Past the closed check but not yet released from the mutex. */
  predicate Entering(t: Thread) {
    t.Call? && t.call in {Open, SlotTaken, WgAdded, Counted}
  }

  ghost predicate CloserOk(s: State, t: Thread) {
    t.Closer? ==>
      && (t.close !in {CloseArriving, CloseLocked} ==> s.closed)
      && (t.close == Drained ==> Sum(s.threads, WgOf) == 0)
      && (t.close.Returned? ==> Sum(s.threads, InflightOf) <= t.close.abandoned)
  }

  ghost predicate Counters(s: State) {
    && s.slots == Sum(s.threads, SlotsOf) <= s.cap
    && s.wg == Sum(s.threads, WgOf)
    && s.inflight == Sum(s.threads, InflightOf)
  }

  ghost predicate Exclusion(s: State) {
    forall i | 0 <= i < |s.threads| :: HoldsLock(s.threads[i]) <==> s.holder == i
  }

  ghost predicate Inv(s: State) {
    && -1 <= s.holder < |s.threads|
    && Counters(s)
    && Exclusion(s)
    && (s.closed ==> forall t | t in s.threads :: !Entering(t))
    && (forall t | t in s.threads :: CloserOk(s, t))
  }

  lemma SumsAfterUpdate(ts: seq<Thread>, i: nat, t: Thread)
    requires i < |ts|
    ensures Sum(ts[i := t], SlotsOf) == Sum(ts, SlotsOf) - SlotsOf(ts[i]) + SlotsOf(t)
    ensures Sum(ts[i := t], WgOf) == Sum(ts, WgOf) - WgOf(ts[i]) + WgOf(t)
    ensures Sum(ts[i := t], InflightOf) == Sum(ts, InflightOf) - InflightOf(ts[i]) + InflightOf(t)
  {
    SumUpdate(ts, i, t, SlotsOf);
    SumUpdate(ts, i, t, WgOf);
    SumUpdate(ts, i, t, InflightOf);
  }

  /** The shared counters change by the change of thread i's own share, and no other thread changes. */
  predicate SharesMove(s: State, s': State, i: nat)
    requires i < |s.threads|
  {
    && |s'.threads| == |s.threads| && s'.threads == s.threads[i := s'.threads[i]]
    && s'.slots - s.slots == SlotsOf(s'.threads[i]) - SlotsOf(s.threads[i])
    && s'.wg - s.wg == WgOf(s'.threads[i]) - WgOf(s.threads[i])
    && s'.inflight - s.inflight == InflightOf(s'.threads[i]) - InflightOf(s.threads[i])
  }

  lemma CallShares(s: State, i: nat, alt: bool)
    requires Enabled(s, Advance(i, alt)) && s.threads[i].Call?
    ensures SharesMove(s, AdvanceCall(s, i), i)
  {
  }

  lemma CloserShares(s: State, i: nat, alt: bool)
    requires Enabled(s, Advance(i, alt)) && s.threads[i].Closer?
    ensures SharesMove(s, AdvanceCloser(s, i, alt), i)
  {
  }

  lemma WaiterShares(s: State, i: nat, alt: bool)
    requires Enabled(s, Advance(i, alt)) && s.threads[i].Waiter?
    ensures SharesMove(s, AdvanceWaiter(s, i, alt), i)
  {
  }

  lemma SharesMatch(s: State, i: nat, alt: bool)
    requires Enabled(s, Advance(i, alt))
    ensures SharesMove(s, Apply(s, Advance(i, alt)), i)
  {
    match s.threads[i]
    case Call(_) => CallShares(s, i, alt);
    case Closer(_) => CloserShares(s, i, alt);
    case Waiter(_) => WaiterShares(s, i, alt);
  }

  lemma StepKeepsCounters(s: State, step: Step)
    requires Counters(s) && Enabled(s, step)
    ensures Counters(Apply(s, step))
  {
    match step {
      case Spawn(t) =>
        SumAppend(s.threads, t, SlotsOf);
        SumAppend(s.threads, t, WgOf);
        SumAppend(s.threads, t, InflightOf);
      case Advance(i, alt) =>
        SharesMatch(s, i, alt);
        SumsAfterUpdate(s.threads, i, Apply(s, step).threads[i]);
    }
  }

  /** Once closed, the wait group and the in-flight counter can only fall. */
  lemma ClosedCountersFall(s: State, step: Step)
    requires Inv(s) && Enabled(s, step) && s.closed
    ensures Sum(Apply(s, step).threads, WgOf) <= Sum(s.threads, WgOf)
    ensures Sum(Apply(s, step).threads, InflightOf) <= Sum(s.threads, InflightOf)
  {
    var s' := Apply(s, step);
    match step {
      case Spawn(t) =>
        SumAppend(s.threads, t, WgOf);
        SumAppend(s.threads, t, InflightOf);
      case Advance(i, alt) =>
        assert s.threads[i] in s.threads;
        SumUpdate(s.threads, i, s'.threads[i], WgOf);
        SumUpdate(s.threads, i, s'.threads[i], InflightOf);
    }
  }

  lemma StepKeepsExclusion(s: State, step: Step)
    requires -1 <= s.holder < |s.threads| && Exclusion(s) && Enabled(s, step)
    ensures Exclusion(Apply(s, step))
    ensures -1 <= Apply(s, step).holder < |Apply(s, step).threads|
  {
    var s' := Apply(s, step);
    forall j | 0 <= j < |s'.threads| ensures HoldsLock(s'.threads[j]) <==> s'.holder == j {
      if j < |s.threads| {
        assert HoldsLock(s.threads[j]) <==> s.holder == j;
      }
    }
  }

  lemma StepKeepsClosed(s: State, step: Step)
    requires Inv(s) && Enabled(s, step)
    ensures s.closed ==> Apply(s, step).closed
    ensures Apply(s, step).closed ==> forall t | t in Apply(s, step).threads :: !Entering(t)
  {
    var s' := Apply(s, step);
    if s'.closed {
      forall t | t in s'.threads ensures !Entering(t) {
        var j :| 0 <= j < |s'.threads| && s'.threads[j] == t;
        if j < |s.threads| {
          assert s.threads[j] in s.threads;
          assert HoldsLock(s.threads[j]) <==> s.holder == j;
          if step.Advance? {
            assert HoldsLock(s.threads[step.i]) <==> s.holder == step.i;
          }
        }
      }
    }
  }

  lemma InflightWithinWg(ts: seq<Thread>)
    ensures Sum(ts, InflightOf) <= Sum(ts, WgOf)
  {
    SumPointwise(ts, InflightOf, WgOf);
  }

  /** A closer that did not move: the counters it waits for only fell. */
  lemma CloserStays(s: State, s': State, t: Thread)
    requires CloserOk(s, t) && (s.closed ==> s'.closed)
    requires s.closed ==> Sum(s'.threads, WgOf) <= Sum(s.threads, WgOf) && Sum(s'.threads, InflightOf) <= Sum(s.threads, InflightOf)
    ensures CloserOk(s', t)
  {
  }

  /** A closer that moved: it records the counters as they are. */
  lemma CloserMoves(s: State, i: nat, alt: bool)
    requires Counters(s) && Enabled(s, Advance(i, alt)) && s.threads[i].Closer? && CloserOk(s, s.threads[i])
    ensures var s' := AdvanceCloser(s, i, alt); CloserOk(s', s'.threads[i])
  {
    var t := AdvanceCloser(s, i, alt).threads[i];
    InflightWithinWg(s.threads);
    SumUpdate(s.threads, i, t, WgOf);
    SumUpdate(s.threads, i, t, InflightOf);
  }

  lemma StepKeepsClosers(s: State, step: Step)
    requires Inv(s) && Enabled(s, step)
    ensures forall t | t in Apply(s, step).threads :: CloserOk(Apply(s, step), t)
  {
    var s' := Apply(s, step);
    if s.closed { ClosedCountersFall(s, step); }
    StepKeepsClosed(s, step);
    forall t | t in s'.threads ensures CloserOk(s', t) {
      var j :| 0 <= j < |s'.threads| && s'.threads[j] == t;
      if j < |s.threads| {
        assert s.threads[j] in s.threads;
        if s'.threads[j] == s.threads[j] {
          CloserStays(s, s', t);
        } else if t.Closer? {
          assert step.Advance? && step.i == j && s.threads[j].Closer?;
          CloserMoves(s, j, step.alt);
        }
      }
    }
  }

  lemma StepKeepsInv(s: State, step: Step)
    requires Inv(s) && Enabled(s, step)
    ensures Inv(Apply(s, step))
  {
    StepKeepsCounters(s, step);
    StepKeepsExclusion(s, step);
    StepKeepsClosed(s, step);
    StepKeepsClosers(s, step);
  }

  lemma {:induction false} RunKeepsInv(s: State, steps: seq<Step>)
    requires Inv(s) && ValidRun(s, steps)
    ensures Inv(Run(s, steps))
    decreases |steps|
  {
    if steps != [] {
      StepKeepsInv(s, steps[0]);
      RunKeepsInv(Apply(s, steps[0]), steps[1..]);
    }
  }

  // ----- Main results -----

  /** A state the dispatcher can be in. */
  ghost predicate Reachable(s: State) {
    exists maxInFlight: int, steps: seq<Step> :: ValidRun(Init(maxInFlight), steps) && s == Run(Init(maxInFlight), steps)
  }

  lemma ReachableInv(s: State)
    requires Reachable(s)
    ensures Inv(s)
  {
    var maxInFlight: int, steps: seq<Step> :| ValidRun(Init(maxInFlight), steps) && s == Run(Init(maxInFlight), steps);
    RunKeepsInv(Init(maxInFlight), steps);
  }

  /** Running sends never exceed the capacity. */
  lemma SendsWithinCapacity(s: State)
    requires Reachable(s)
    ensures Sum(s.threads, SendingOf) <= s.slots <= s.cap
  {
    ReachableInv(s);
    SumPointwise(s.threads, SendingOf, SlotsOf);
  }

  lemma AcceptedIsOverOrCounted(t: Thread)
    requires !HoldsLock(t)
    ensures IsAccepted(t) == IsFinished(t) + InflightOf(t)
  {
    if t.Call? {
      assert t.call.Arriving? || t.call.Accepted? || t.call.Sending? || t.call.Sent? || t.call.SlotFreed? ||
             t.call.Uncounted? || t.call.Finished? || t.call.Dropped?;
    }
  }

  /** Every call is accepted, dropped or still being decided; whenever the mutex is free, every
      accepted call is either over or counted in flight. */
  lemma CallsAccountedFor(s: State)
    requires Reachable(s)
    ensures Sum(s.threads, IsCall) == Sum(s.threads, IsAccepted) + Sum(s.threads, IsDropped) + Sum(s.threads, IsUndecided)
    ensures s.holder == NOBODY ==> Sum(s.threads, IsAccepted) == Sum(s.threads, IsFinished) + s.inflight
  {
    ReachableInv(s);
    var decided := (t: Thread) => IsAccepted(t) + IsDropped(t);
    SumSplits(s.threads, IsCall, decided, IsUndecided);
    SumSplits(s.threads, decided, IsAccepted, IsDropped);
    if s.holder == NOBODY {
      forall t | t in s.threads ensures IsAccepted(t) == IsFinished(t) + InflightOf(t) {
        var j :| 0 <= j < |s.threads| && s.threads[j] == t;
        assert !HoldsLock(t);
        AcceptedIsOverOrCounted(t);
      }
      SumSplits(s.threads, IsAccepted, IsFinished, InflightOf);
    }
  }

  /** Once closed is set, no run accepts a further call: the accepted calls stay the same ones. */
  lemma NothingAcceptedAfterClose(s: State, steps: seq<Step>, i: nat)
    requires Reachable(s) && s.closed && ValidRun(s, steps)
    requires i < |Run(s, steps).threads|
    ensures AcceptedCall(Run(s, steps).threads[i]) <==> i < |s.threads| && AcceptedCall(s.threads[i])
  {
    ReachableInv(s);
    ClosedAcceptsNothing(s, steps, i);
  }

  lemma {:induction false} ClosedAcceptsNothing(s: State, steps: seq<Step>, i: nat)
    requires Inv(s) && s.closed && ValidRun(s, steps)
    requires i < |Run(s, steps).threads|
    ensures AcceptedCall(Run(s, steps).threads[i]) <==> i < |s.threads| && AcceptedCall(s.threads[i])
    decreases |steps|
  {
    if steps != [] {
      var s1 := Apply(s, steps[0]);
      StepKeepsInv(s, steps[0]);
      StepKeepsClosed(s, steps[0]);
      ClosedAcceptsNothing(s1, steps[1..], i);
      if i < |s.threads| { assert s.threads[i] in s.threads; }
    }
  }

  lemma {:induction false} ClosedStartsNothing(s: State, steps: seq<Step>, i: nat)
    requires Inv(s) && s.closed && ValidRun(s, steps) && forall t | t in s.threads :: t != Call(Accepted)
    requires i < |Run(s, steps).threads| && Run(s, steps).threads[i] == Call(Sending)
    ensures i < |s.threads| && s.threads[i] == Call(Sending)
    decreases |steps|
  {
    if steps != [] {
      StepKeepsInv(s, steps[0]);
      StepKeepsClosed(s, steps[0]);
      ClosedStepAccepts(s, steps[0]);
      ClosedStartsNothing(Apply(s, steps[0]), steps[1..], i);
      assert i < |s.threads| ==> s.threads[i] in s.threads;
    }
  }

  lemma ClosedStepAccepts(s: State, step: Step)
    requires Enabled(s, step) && (forall t | t in s.threads :: !Entering(t)) && forall t | t in s.threads :: t != Call(Accepted)
    ensures forall t | t in Apply(s, step).threads :: t != Call(Accepted)
  {
    var s' := Apply(s, step);
    forall j | 0 <= j < |s'.threads| ensures s'.threads[j] != Call(Accepted) {
      assert j < |s.threads| ==> s.threads[j] in s.threads;
    }
  }

  /** Whoever sends in s' was already sending in s. */
  ghost predicate NoNewSend(s: State, s': State) {
    forall i | 0 <= i < |s'.threads| && s'.threads[i] == Call(Sending) :: i < |s.threads| && s.threads[i] == Call(Sending)
  }

  /** Once closed is set, no send starts in any run exactly when no accepted delivery is still waiting to
      begin. */
  lemma NoSendStartsIffNoneAccepted(s: State)
    requires Reachable(s) && s.closed
    ensures (forall steps | ValidRun(s, steps) :: NoNewSend(s, Run(s, steps))) <==> forall t | t in s.threads :: t != Call(Accepted)
  {
    ReachableInv(s);
    if forall t | t in s.threads :: t != Call(Accepted) {
      forall steps | ValidRun(s, steps) ensures NoNewSend(s, Run(s, steps)) {
        forall i | 0 <= i < |Run(s, steps).threads| && Run(s, steps).threads[i] == Call(Sending)
          ensures i < |s.threads| && s.threads[i] == Call(Sending)
        {
          ClosedStartsNothing(s, steps, i);
        }
      }
    } else {
      var i: nat :| i < |s.threads| && s.threads[i] == Call(Accepted);
      AcceptedStarts(s, i);
    }
  }

  lemma AcceptedStarts(s: State, i: nat)
    requires i < |s.threads| && s.threads[i] == Call(Accepted)
    ensures var steps := [Advance(i, false)]; ValidRun(s, steps) && !NoNewSend(s, Run(s, steps))
  {
    var steps := [Advance(i, false)];
    var s' := Apply(s, steps[0]);
    assert s'.threads[i] == Call(Sending);
    assert steps[1..] == [] && ValidRun(s', []) && Run(s', []) == s';
  }

  /** What Shutdown returned is, from then on, an upper bound on the deliveries that are sending or
      still will; so a result of 0 means that no send is running or ever will. */
  lemma ShutdownBound(s: State, steps: seq<Step>, i: nat)
    requires Reachable(s) && ValidRun(s, steps)
    requires i < |s.threads| && s.threads[i].Closer? && s.threads[i].close.Returned?
    ensures Sum(Run(s, steps).threads, UnsentOf) <= s.threads[i].close.abandoned
    ensures s.threads[i].close.abandoned == 0 ==> forall t | t in Run(s, steps).threads :: t != Call(Sending) && t != Call(Accepted)
  {
    ReachableInv(s);
    RunKeepsInv(s, steps);
    ReturnedStays(s, steps, i);
    var s' := Run(s, steps);
    assert s'.threads[i] in s'.threads && CloserOk(s', s'.threads[i]);
    SumPointwise(s'.threads, UnsentOf, InflightOf);
    forall t | t in s'.threads ensures UnsentOf(t) <= Sum(s'.threads, UnsentOf) {
      var j :| 0 <= j < |s'.threads| && s'.threads[j] == t;
      SumCovers(s'.threads, j, UnsentOf);
    }
  }

  lemma {:induction false} ReturnedStays(s: State, steps: seq<Step>, i: nat)
    requires ValidRun(s, steps)
    requires i < |s.threads| && s.threads[i].Closer? && s.threads[i].close.Returned?
    ensures i < |Run(s, steps).threads| && Run(s, steps).threads[i] == s.threads[i]
    decreases |steps|
  {
    if steps != [] {
      ReturnedStays(Apply(s, steps[0]), steps[1..], i);
    }
  }

  /** A Wait that completes its collection does so at an instant with no send running. */
  lemma FullWaitSeesNoSend(s: State, i: nat)
    requires Reachable(s)
    requires i < |s.threads| && s.threads[i] == Waiter(Acquiring(s.cap))
    ensures Sum(s.threads, SendingOf) == 0
  {
    ReachableInv(s);
    var others := s.threads[i := Call(Dropped)];
    SumUpdate(s.threads, i, Call(Dropped), SlotsOf);
    SumUpdate(s.threads, i, Call(Dropped), SendingOf);
    SumPointwise(others, SendingOf, SlotsOf);
  }

  /** A Wait that returned nil had such an instant earlier in the run. */
  lemma {:induction false} NilWaitHadQuietInstant(maxInFlight: int, steps: seq<Step>, i: nat)
    requires ValidRun(Init(maxInFlight), steps)
    requires i < |Run(Init(maxInFlight), steps).threads|
    requires Run(Init(maxInFlight), steps).threads[i] in {Waiter(WaitDone(true))} || Gathered(Run(Init(maxInFlight), steps).threads[i])
    ensures exists k | 0 <= k <= |steps| ::
              ValidRun(Init(maxInFlight), steps[..k]) &&
              i < |Run(Init(maxInFlight), steps[..k]).threads| &&
              Sum(Run(Init(maxInFlight), steps[..k]).threads, SendingOf) == 0
    decreases |steps|
  {
    var s0 := Init(maxInFlight);
    if steps != [] {
      var n := |steps| - 1;
      RunSnoc(s0, steps);
      var s := Run(s0, steps[..n]);
      var step := steps[n];
      if i < |s.threads| && s.threads[i] == Waiter(Acquiring(s.cap)) {
        assert Reachable(s);
        FullWaitSeesNoSend(s, i);
      } else {
        NilWaitHadQuietInstant(maxInFlight, steps[..n], i);
        var k :| 0 <= k <= n && ValidRun(s0, steps[..n][..k]) &&
                 i < |Run(s0, steps[..n][..k]).threads| && Sum(Run(s0, steps[..n][..k]).threads, SendingOf) == 0;
        assert steps[..n][..k] == steps[..k];
      }
    }
  }

  predicate Gathered(t: Thread) {
    t.Waiter? && t.wait.Giving? && t.wait.full
  }

  lemma {:induction false} RunSnoc(s: State, steps: seq<Step>)
    requires ValidRun(s, steps) && steps != []
    ensures ValidRun(s, steps[..|steps| - 1])
    ensures Enabled(Run(s, steps[..|steps| - 1]), steps[|steps| - 1])
    ensures Run(s, steps) == Apply(Run(s, steps[..|steps| - 1]), steps[|steps| - 1])
    decreases |steps|
  {
    if |steps| > 1 {
      RunSnoc(Apply(s, steps[0]), steps[1..]);
      assert steps[1..][..|steps| - 2] == steps[..|steps| - 1][1..];
    }
  }

  /** Slots are given back exactly: when no call and no Wait holds one, the channel is empty; and no
      release ever blocks or drives a counter below zero. */
  lemma SlotsGivenBack(s: State)
    requires Reachable(s)
    ensures (forall t | t in s.threads :: SlotsOf(t) == 0) ==> s.slots == 0
    ensures forall t | t in s.threads && SlotsOf(t) > 0 :: s.slots >= SlotsOf(t)
    ensures forall t | t in s.threads && t == Call(SlotFreed) :: s.inflight > 0
    ensures forall t | t in s.threads && t == Call(Uncounted) :: s.wg > 0
  {
    ReachableInv(s);
    if forall t | t in s.threads :: SlotsOf(t) == 0 {
      SumVanishes(s.threads, SlotsOf);
    }
    forall t | t in s.threads
      ensures SlotsOf(t) <= s.slots && InflightOf(t) <= s.inflight && WgOf(t) <= s.wg
    {
      var j :| 0 <= j < |s.threads| && s.threads[j] == t;
      SumCovers(s.threads, j, SlotsOf);
      SumCovers(s.threads, j, InflightOf);
      SumCovers(s.threads, j, WgOf);
    }
  }

  // ----- Two boundary cases -----

  lemma {:induction false} RunAppend(s: State, steps: seq<Step>, step: Step)
    requires ValidRun(s, steps) && Enabled(Run(s, steps), step)
    ensures ValidRun(s, steps + [step]) && Run(s, steps + [step]) == Apply(Run(s, steps), step)
    decreases |steps|
  {
    if steps == [] {
      assert steps + [step] == [step];
    } else {
      RunAppend(Apply(s, steps[0]), steps[1..], step);
      assert (steps + [step])[1..] == steps[1..] + [step];
    }
  }

  lemma Extend(s: State, step: Step) returns (s': State)
    requires Reachable(s) && Enabled(s, step)
    ensures s' == Apply(s, step) && Reachable(s')
  {
    var maxInFlight: int, steps: seq<Step> :| ValidRun(Init(maxInFlight), steps) && s == Run(Init(maxInFlight), steps);
    RunAppend(Init(maxInFlight), steps, step);
    s' := Apply(s, step);
  }

  /** A lone call reaches the point where it is counted. */
  lemma CallReachesCounted(maxInFlight: int) returns (s: State)
    ensures Reachable(s)
    ensures s == State(Capacity(maxInFlight), 1, false, 1, 1, 0, [Call(Counted)])
  {
    s := Init(maxInFlight);
    assert ValidRun(s, []) && Run(s, []) == s;
    s := Extend(s, Spawn(Call(Arriving)));
    assert s.threads == [Call(Arriving)];
    s := Extend(s, Advance(0, false));
    s := Extend(s, Advance(0, false));
    s := Extend(s, Advance(0, false));
    s := Extend(s, Advance(0, false));
    s := Extend(s, Advance(0, false));
  }

  /** The in-flight counter may exceed the capacity: a delivery gives its slot back before it leaves
      the count. */
  lemma InflightMayExceedCapacity() returns (s: State)
    ensures Reachable(s) && s.inflight > s.cap
  {
    s := CallReachesCounted(1);
    s := Extend(s, Advance(0, false));
    s := Extend(s, Advance(0, false));
    s := Extend(s, Advance(0, false));
    s := Extend(s, Advance(0, false));
    assert s == State(1, 0, false, 1, 1, NOBODY, [Call(SlotFreed)]);
    s := Extend(s, Spawn(Call(Arriving)));
    assert s.threads == [Call(SlotFreed), Call(Arriving)];
    s := Extend(s, Advance(1, false));
    s := Extend(s, Advance(1, false));
    s := Extend(s, Advance(1, false));
    s := Extend(s, Advance(1, false));
    s := Extend(s, Advance(1, false));
  }

  /** A delivery accepted before Shutdown may begin sending after closed is set; by
      NothingAcceptedAfterClose only such deliveries can. */
  lemma AcceptedDeliveryMayStartAfterClose() returns (s: State)
    ensures Reachable(s) && s.closed && Enabled(s, Advance(0, false))
    ensures s.threads[0] == Call(Accepted) && Apply(s, Advance(0, false)).threads[0] == Call(Sending)
  {
    s := CallReachesCounted(1);
    s := Extend(s, Advance(0, false));
    s := Extend(s, Spawn(Closer(CloseArriving)));
    assert s.threads == [Call(Accepted), Closer(CloseArriving)];
    s := Extend(s, Advance(1, false));
    s := Extend(s, Advance(1, false));
  }
}
