/** The waiter monitor of the dining-philosophers simulation, seen as a guarded
    state machine over the chopstick counter.  A `wait` on a condition that does
    not hold becomes an operation that is not enabled (`Blocked`); the phases
    record where each philosopher is in its fixed left-right-return cycle. */
module Waiter {
  import opened Wrappers

  /** Number of philosopher threads created by the simulation. */
  const Philosophers := 5
  /** Closed range accepted for the number of chopsticks. */
  const MinChopsticks := 5
  const MaxChopsticks := 10

  datatype Phase = Idle | HasLeft | Eating

  /** Which conditions an operation posts to before it leaves the monitor. */
  datatype Signals = Signals(atLeastOne: bool, atLeastTwo: bool)

  /** The chopstick counter together with every philosopher's phase. */
  datatype Table = Table(capacity: int, available: int, phases: seq<Phase>)

  datatype Outcome = Blocked | Done(next: Table, signals: Signals)

  datatype Action = Left(p: nat) | Right(p: nat) | Return(p: nat)

  /** Number of philosophers in phase `ph`. */
  function Count(phases: seq<Phase>, ph: Phase): nat
  {
    if |phases| == 0 then 0
    else Count(phases[..|phases| - 1], ph) + (if phases[|phases| - 1] == ph then 1 else 0)
  }

  /** The safety invariant: chopsticks are conserved, the counter stays within
      `[0, capacity]`, and nobody can be left holding one chopstick with an
      empty pool while nobody eats. */
  ghost predicate Inv(t: Table)
  {
    && |t.phases| == Philosophers
    && t.available + Count(t.phases, HasLeft) + 2 * Count(t.phases, Eating) == t.capacity
    && 0 <= t.available <= t.capacity
    && (Count(t.phases, HasLeft) == 0 || Count(t.phases, Eating) > 0 || t.available >= 1)
  }

  /** `init`: the counter starts at `n` and every philosopher is idle. */
  function Init(n: int): (t: Table)
    ensures t.available == n && t.capacity == n
    ensures |t.phases| == Philosophers && Count(t.phases, HasLeft) == 0 && Count(t.phases, Eating) == 0
    ensures 0 <= n ==> Inv(t)
  {
    var t := Table(n, n, seq(Philosophers, _ => Idle));
    CountAllIdle(t.phases);
    t
  }

  /** After taking one chopstick: "at least one" is posted iff one remains,
      and "at least two" only inside that branch, iff two remain. */
  function PostAfterTake(available: int): (s: Signals)
    ensures s.atLeastOne <==> available >= 1
    ensures s.atLeastTwo <==> available >= 2
  {
    if available >= 1 then Signals(true, available >= 2) else Signals(false, false)
  }

  /** `request_left_chopstick`: waits while fewer than two chopsticks are free. */
  function RequestLeft(t: Table, p: nat): (r: Outcome)
    requires p < |t.phases| && t.phases[p] == Idle
    ensures r.Done? <==> t.available >= 2
    ensures r.Done? ==> r.next == t.(available := t.available - 1, phases := t.phases[p := HasLeft])
    ensures r.Done? ==> r.next.available >= 1
    ensures r.Done? ==> r.signals == Signals(true, r.next.available >= 2)
  {
    if t.available < 2 then Blocked
    else
      var avail := t.available - 1;
      Done(t.(available := avail, phases := t.phases[p := HasLeft]), PostAfterTake(avail))
  }

  /** `request_right_chopstick`: waits while no chopstick is free. */
  function RequestRight(t: Table, p: nat): (r: Outcome)
    requires p < |t.phases| && t.phases[p] == HasLeft
    ensures r.Done? <==> t.available >= 1
    ensures r.Done? ==> r.next == t.(available := t.available - 1, phases := t.phases[p := Eating])
    ensures r.Done? ==> r.next.available >= 0
    ensures r.Done? ==> (r.signals.atLeastOne <==> r.next.available >= 1)
    ensures r.Done? ==> (r.signals.atLeastTwo <==> r.next.available >= 2)
  {
    if t.available < 1 then Blocked
    else
      var avail := t.available - 1;
      Done(t.(available := avail, phases := t.phases[p := Eating]), PostAfterTake(avail))
  }

  /** `return_chopsticks`: never waits; gives back both chopsticks. */
  function ReturnChopsticks(t: Table, p: nat): (r: Outcome)
    requires p < |t.phases| && t.phases[p] == Eating
    ensures r.Done?
    ensures r.next == t.(available := t.available + 2, phases := t.phases[p := Idle])
    ensures r.signals.atLeastOne
    ensures r.signals.atLeastTwo <==> r.next.available >= 2
  {
    var avail := t.available + 2;
    Done(t.(available := avail, phases := t.phases[p := Idle]), Signals(true, avail >= 2))
  }

  /** The philosopher issuing `a` is in the phase its thread would call it from:
      left from idle, right after left, return while eating. */
  predicate InProtocol(t: Table, a: Action)
  {
    a.p < |t.phases| &&
    match a
    case Left(p) => t.phases[p] == Idle
    case Right(p) => t.phases[p] == HasLeft
    case Return(p) => t.phases[p] == Eating
  }

  function Step(t: Table, a: Action): Outcome
    requires InProtocol(t, a)
  {
    match a
    case Left(p) => RequestLeft(t, p)
    case Right(p) => RequestRight(t, p)
    case Return(p) => ReturnChopsticks(t, p)
  }

  /** Runs a trace of operations that completed, in order; `None` when some
      operation was out of protocol or could not have completed. */
  function Run(t: Table, trace: seq<Action>): Option<Table>
    decreases |trace|
  {
    if |trace| == 0 then Some(t)
    else if !InProtocol(t, trace[0]) then None
    else match Step(t, trace[0])
      case Blocked => None
      case Done(next, _) => Run(next, trace[1..])
  }

  ghost predicate Reachable(t: Table)
  {
    exists n: nat, trace: seq<Action> :: Run(Init(n), trace) == Some(t)
  }

  lemma {:induction false} CountAllIdle(phases: seq<Phase>)
    requires forall i | 0 <= i < |phases| :: phases[i] == Idle
    ensures Count(phases, HasLeft) == 0 && Count(phases, Eating) == 0
  {
    if |phases| > 0 {
      CountAllIdle(phases[..|phases| - 1]);
    }
  }

  /** Changing one philosopher's phase moves exactly one unit between counts. */
  lemma {:induction false} CountUpdate(phases: seq<Phase>, i: nat, v: Phase, ph: Phase)
    requires i < |phases|
    ensures Count(phases[i := v], ph)
         == Count(phases, ph) - (if phases[i] == ph then 1 else 0) + (if v == ph then 1 else 0)
  {
    var last := |phases| - 1;
    if i == last {
      assert phases[i := v][..last] == phases[..last];
    } else {
      assert phases[i := v][..last] == phases[..last][i := v];
      CountUpdate(phases[..last], i, v, ph);
    }
  }

  /** Some philosopher in phase `ph` exists exactly when the count is positive. */
  lemma {:induction false} CountPositive(phases: seq<Phase>, ph: Phase)
    ensures Count(phases, ph) > 0 <==> exists i :: 0 <= i < |phases| && phases[i] == ph
  {
    if |phases| > 0 {
      var last := |phases| - 1;
      CountPositive(phases[..last], ph);
      if Count(phases[..last], ph) > 0 {
        var i :| 0 <= i < last && phases[..last][i] == ph;
        assert phases[i] == ph;
      }
      if exists i :: 0 <= i < |phases| && phases[i] == ph {
        var i :| 0 <= i < |phases| && phases[i] == ph;
        if i < last {
          assert phases[..last][i] == ph;
        }
      }
    }
  }

  /** Every completed operation keeps the invariant. */
  lemma StepPreservesInv(t: Table, a: Action)
    requires Inv(t) && InProtocol(t, a) && Step(t, a).Done?
    ensures Inv(Step(t, a).next)
  {
    var p := a.p;
    var next := Step(t, a).next;
    CountUpdate(t.phases, p, next.phases[p], HasLeft);
    CountUpdate(t.phases, p, next.phases[p], Eating);
  }

  /** Every table reached from a valid one by completed operations is valid. */
  lemma {:induction false} RunPreservesInv(t: Table, trace: seq<Action>)
    requires Inv(t) && Run(t, trace).Some?
    ensures Inv(Run(t, trace).value)
    decreases |trace|
  {
    if |trace| > 0 {
      StepPreservesInv(t, trace[0]);
      RunPreservesInv(Step(t, trace[0]).next, trace[1..]);
    }
  }

  /** Conservation and bounds hold in every reachable state. */
  lemma ReachableIsSafe(t: Table)
    requires Reachable(t)
    ensures 0 <= t.available <= t.capacity
    ensures t.available + Count(t.phases, HasLeft) + 2 * Count(t.phases, Eating) == t.capacity
  {
    var n: nat, trace :| Run(Init(n), trace) == Some(t);
    RunPreservesInv(Init(n), trace);
  }

  /** The "two before the first" rule at work: a philosopher holding one
      chopstick while nobody eats can always get the second one. */
  lemma OneHolderCanProceed(t: Table, p: nat)
    requires Inv(t) && p < |t.phases| && t.phases[p] == HasLeft
    requires Count(t.phases, Eating) == 0
    ensures t.available >= 1
    ensures RequestRight(t, p).Done?
  {
    CountPositive(t.phases, HasLeft);
  }

  /** No deadlock: whenever some philosopher has started a cycle, some
      philosopher that has started one can complete its next operation. */
  lemma HolderCanProceed(t: Table)
    requires Inv(t)
    requires exists i :: 0 <= i < |t.phases| && t.phases[i] != Idle
    ensures exists a: Action :: InProtocol(t, a) && t.phases[a.p] != Idle && Step(t, a).Done?
  {
    var i :| 0 <= i < |t.phases| && t.phases[i] != Idle;
    if exists e :: 0 <= e < |t.phases| && t.phases[e] == Eating {
      var e :| 0 <= e < |t.phases| && t.phases[e] == Eating;
      assert Step(t, Return(e)).Done?;
    } else {
      CountPositive(t.phases, Eating);
      assert t.phases[i] == HasLeft;
      OneHolderCanProceed(t, i);
      assert Step(t, Right(i)).Done?;
    }
  }

  /** When every philosopher is idle the whole pool is free, so any left
      request (and therefore any invited philosopher) can start. */
  lemma IdleTableAdmitsAll(t: Table, p: nat)
    requires Inv(t) && t.capacity >= 2
    requires forall i | 0 <= i < |t.phases| :: t.phases[i] == Idle
    requires p < |t.phases|
    ensures t.available == t.capacity
    ensures RequestLeft(t, p).Done?
  {
    CountAllIdle(t.phases);
  }

  /** One philosopher's full cycle, left then right then return, when nobody
      else holds a chopstick, leaves the table exactly as it found it. */
  lemma CycleRestores(t: Table, p: nat)
    requires Inv(t) && t.capacity >= 2
    requires forall i | 0 <= i < |t.phases| :: t.phases[i] == Idle
    requires p < |t.phases|
    ensures Run(t, [Left(p), Right(p), Return(p)]) == Some(t)
  {
    IdleTableAdmitsAll(t, p);
    var t1 := RequestLeft(t, p).next;
    var t2 := RequestRight(t1, p).next;
    var t3 := ReturnChopsticks(t2, p).next;
    assert t3 == t;
    var trace := [Left(p), Right(p), Return(p)];
    assert trace[1..] == [Right(p), Return(p)];
    assert trace[1..][1..] == [Return(p)];
    assert Run(t2, [Return(p)]) == Run(t3, []);
    assert Run(t1, trace[1..]) == Run(t2, [Return(p)]);
  }
}
