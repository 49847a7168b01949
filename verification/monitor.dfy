/** The monitor construction both the waiter and the cafeteria queue are built
    on: mutual exclusion and Hoare-style condition variables made from counting
    semaphores. A semaphore is its count; a `sem_wait` that would block is an
    operation that is not enabled (`None`). Condition `c` is an index into the
    two per-condition sequences. */
module SemMonitor {
  import opened Wrappers

  datatype Monitor = Monitor(
    mutexSem: nat,        // entry semaphore, 1 when nobody occupies the monitor
    nextSem: nat,         // semaphore a signaller sleeps on until it may resume
    nextCount: nat,       // signallers sleeping on `nextSem`
    condSem: seq<nat>,    // one semaphore per condition
    condCount: seq<nat>)  // threads waiting on each condition

  /** Which semaphore a thread leaving the monitor posts to. */
  datatype Handoff = ToNext | ReleaseMutex

  predicate WellFormed(m: Monitor)
  {
    |m.condSem| == |m.condCount|
  }

  function Sum(s: seq<nat>): nat
  {
    if |s| == 0 then 0 else Sum(s[..|s| - 1]) + s[|s| - 1]
  }

  /** Posts available to be taken by some thread: a monitor owns exactly one
      occupancy token, held either by a semaphore or by the occupying thread. */
  function Tokens(m: Monitor): nat
  {
    m.mutexSem + m.nextSem + Sum(m.condSem)
  }

  lemma {:induction false} SumZero(n: nat)
    ensures Sum(seq(n, _ => 0)) == 0
  {
    if n > 0 {
      assert seq(n, _ => 0)[..n - 1] == seq(n - 1, _ => 0);
      SumZero(n - 1);
    }
  }

  /** Updating one entry changes the sum by the difference. */
  lemma {:induction false} SumUpdate(s: seq<nat>, i: nat, v: nat)
    requires i < |s|
    ensures Sum(s[i := v]) == Sum(s) - s[i] + v
  {
    var last := |s| - 1;
    if i == last {
      assert s[i := v][..last] == s[..last];
    } else {
      assert s[i := v][..last] == s[..last][i := v];
      SumUpdate(s[..last], i, v);
    }
  }

  /** `init`: the entry mutex is open, nobody waits anywhere. */
  function Init(conds: nat): (m: Monitor)
    ensures WellFormed(m) && |m.condSem| == conds
    ensures m.mutexSem == 1 && Tokens(m) == 1
    ensures m.nextCount == 0 && forall c | 0 <= c < conds :: m.condCount[c] == 0
  {
    SumZero(conds);
    Monitor(1, 0, 0, seq(conds, _ => 0), seq(conds, _ => 0))
  }

  /** `sem_wait(&mutex_sem)` at the top of every monitor method. */
  function Enter(m: Monitor): (r: Option<Monitor>)
    ensures r.Some? <==> m.mutexSem > 0
    ensures r.Some? ==> r.value == m.(mutexSem := m.mutexSem - 1) && Tokens(r.value) + 1 == Tokens(m)
  {
    if m.mutexSem == 0 then None else Some(m.(mutexSem := m.mutexSem - 1))
  }

  /** Giving up occupancy, as every method's exit and the first half of a
      wait do: a sleeping signaller has priority over new entrants. */
  function Leave(m: Monitor): (r: (Monitor, Handoff))
    ensures r.1 == ToNext <==> m.nextCount > 0
    ensures r.1 == ToNext ==> r.0 == m.(nextSem := m.nextSem + 1)
    ensures r.1 == ReleaseMutex ==> r.0 == m.(mutexSem := m.mutexSem + 1)
    ensures Tokens(r.0) == Tokens(m) + 1
  {
    if m.nextCount > 0 then (m.(nextSem := m.nextSem + 1), ToNext)
    else (m.(mutexSem := m.mutexSem + 1), ReleaseMutex)
  }

  /** `condition_wait`, up to the point where the caller blocks: it counts
      itself as a waiter on `c` and gives up occupancy. */
  function WaitBegin(m: Monitor, c: nat): (r: (Monitor, Handoff))
    requires WellFormed(m) && c < |m.condCount|
    ensures WellFormed(r.0)
    ensures r.0.condCount == m.condCount[c := m.condCount[c] + 1]
    ensures r.0.condSem == m.condSem && r.0.nextCount == m.nextCount
    ensures r.1 == ToNext <==> m.nextCount > 0
    ensures r.1 == ToNext ==> r.0 == m.(condCount := m.condCount[c := m.condCount[c] + 1], nextSem := m.nextSem + 1)
    ensures r.1 == ReleaseMutex ==> r.0 == m.(condCount := m.condCount[c := m.condCount[c] + 1], mutexSem := m.mutexSem + 1)
    ensures Tokens(r.0) == Tokens(m) + 1
  {
    Leave(m.(condCount := m.condCount[c := m.condCount[c] + 1]))
  }

  /** `condition_wait` after the caller is woken: it takes the post on `c`
      and stops counting itself as a waiter. */
  function WaitEnd(m: Monitor, c: nat): (r: Option<Monitor>)
    requires WellFormed(m) && c < |m.condCount|
    ensures r.Some? <==> m.condSem[c] > 0 && m.condCount[c] > 0
    ensures r.Some? ==> WellFormed(r.value) && Tokens(r.value) + 1 == Tokens(m)
    ensures r.Some? ==> r.value == m.(condSem := m.condSem[c := m.condSem[c] - 1],
                                      condCount := m.condCount[c := m.condCount[c] - 1])
  {
    if m.condSem[c] == 0 || m.condCount[c] == 0 then None
    else
      var r := m.(condSem := m.condSem[c := m.condSem[c] - 1],
                  condCount := m.condCount[c := m.condCount[c] - 1]);
      SumUpdate(m.condSem, c, m.condSem[c] - 1);
      Some(r)
  }

  /** `condition_post`: with nobody waiting on `c` it does nothing at all;
      otherwise it posts to `c` and the signaller goes to sleep on `nextSem`
      (`sleeps`). */
  function Signal(m: Monitor, c: nat): (r: (Monitor, bool))
    requires WellFormed(m) && c < |m.condCount|
    ensures !r.1 <==> m.condCount[c] == 0
    ensures !r.1 ==> r.0 == m
    ensures r.1 ==> WellFormed(r.0) && |r.0.condSem| == |m.condSem| && r.0.nextCount == m.nextCount + 1
    ensures r.1 ==> r.0 == m.(nextCount := m.nextCount + 1, condSem := m.condSem[c := m.condSem[c] + 1])
    ensures r.1 ==> Tokens(r.0) == Tokens(m) + 1
  {
    if m.condCount[c] == 0 then (m, false)
    else
      SumUpdate(m.condSem, c, m.condSem[c] + 1);
      (m.(nextCount := m.nextCount + 1, condSem := m.condSem[c := m.condSem[c] + 1]), true)
  }

  /** A sleeping signaller resumes once `nextSem` has been posted. */
  function SignalEnd(m: Monitor): (r: Option<Monitor>)
    ensures r.Some? <==> m.nextSem > 0 && m.nextCount > 0
    ensures r.Some? ==> r.value == m.(nextSem := m.nextSem - 1, nextCount := m.nextCount - 1)
    ensures r.Some? ==> Tokens(r.value) + 1 == Tokens(m)
  {
    if m.nextSem == 0 || m.nextCount == 0 then None
    else Some(m.(nextSem := m.nextSem - 1, nextCount := m.nextCount - 1))
  }

  /** The monitor together with the number of threads running inside it. */
  datatype System = System(mon: Monitor, inside: nat)

  datatype Op = EnterOp | ExitOp | WaitBeginOp(c: nat) | WaitEndOp(c: nat) | SignalOp(c: nat) | SignalEndOp

  /** One thread's step. Exit, wait and signal are issued by the occupying
      thread; the other three take occupancy and need a post to consume. */
  function Apply(s: System, op: Op): Option<System>
    requires WellFormed(s.mon)
  {
    match op
    case EnterOp =>
      (match Enter(s.mon)
       case None => None
       case Some(m) => Some(System(m, s.inside + 1)))
    case ExitOp =>
      if s.inside == 0 then None else Some(System(Leave(s.mon).0, s.inside - 1))
    case WaitBeginOp(c) =>
      if s.inside == 0 || c >= |s.mon.condCount| then None
      else Some(System(WaitBegin(s.mon, c).0, s.inside - 1))
    case WaitEndOp(c) =>
      if c >= |s.mon.condCount| then None
      else (match WaitEnd(s.mon, c)
            case None => None
            case Some(m) => Some(System(m, s.inside + 1)))
    case SignalOp(c) =>
      if s.inside == 0 || c >= |s.mon.condCount| then None
      else
        var (m, sleeps) := Signal(s.mon, c);
        Some(System(m, if sleeps then s.inside - 1 else s.inside))
    case SignalEndOp =>
      (match SignalEnd(s.mon)
       case None => None
       case Some(m) => Some(System(m, s.inside + 1)))
  }

  /** Exactly one occupancy token, and every post on `nextSem` or on a
      condition is matched by a thread counted as waiting for it. */
  ghost predicate Inv(s: System)
  {
    && WellFormed(s.mon)
    && Tokens(s.mon) + s.inside == 1
    && s.mon.nextSem <= s.mon.nextCount
    && forall c | 0 <= c < |s.mon.condSem| :: s.mon.condSem[c] <= s.mon.condCount[c]
  }

  lemma InitInv(conds: nat)
    ensures Inv(System(Init(conds), 0))
  {
  }

  lemma {:induction false} SumZeroIff(s: seq<nat>)
    ensures Sum(s) == 0 <==> forall i | 0 <= i < |s| :: s[i] == 0
  {
    if |s| > 0 {
      SumZeroIff(s[..|s| - 1]);
      assert forall i | 0 <= i < |s| - 1 :: s[..|s| - 1][i] == s[i];
    }
  }

  lemma {:induction false} SumPositive(s: seq<nat>)
    requires Sum(s) > 0
    ensures exists i :: 0 <= i < |s| && s[i] > 0
  {
    SumZeroIff(s);
  }

  /** Every step keeps the invariant. */
  lemma ApplyPreservesInv(s: System, op: Op)
    requires Inv(s) && Apply(s, op).Some?
    ensures Inv(Apply(s, op).value)
  {
    var s' := Apply(s, op).value;
    if s.inside > 0 {
      // the occupant holds the token, so every semaphore is zero
      SumZeroIff(s.mon.condSem);
    }
    match op
    case EnterOp =>
    case ExitOp =>
    case WaitBeginOp(c) =>
    case WaitEndOp(c) =>
      assert forall d | 0 <= d < |s'.mon.condSem| && d != c :: s'.mon.condSem[d] == s.mon.condSem[d];
    case SignalOp(c) =>
    case SignalEndOp =>
  }

  /** Mutual exclusion: at most one thread runs inside the monitor. */
  lemma MutualExclusion(s: System)
    requires Inv(s)
    ensures s.inside <= 1
  {
  }

  /** The occupancy token is never lost: when nobody is inside, some thread
      can take occupancy, a new entrant, a resuming signaller or a woken waiter. */
  lemma TokenNeverLost(s: System)
    requires Inv(s) && s.inside == 0
    ensures Apply(s, EnterOp).Some? || Apply(s, SignalEndOp).Some?
            || exists c :: 0 <= c < |s.mon.condSem| && Apply(s, WaitEndOp(c)).Some?
  {
    if s.mon.mutexSem == 0 && s.mon.nextSem == 0 {
      SumPositive(s.mon.condSem);
      var c :| 0 <= c < |s.mon.condSem| && s.mon.condSem[c] > 0;
      assert Apply(s, WaitEndOp(c)).Some?;
    }
  }

  /** Urgent priority: while a signaller sleeps inside the monitor, leaving it
      never reopens the entry mutex to a new thread. */
  lemma SleeperHasPriority(s: System)
    requires Inv(s) && s.inside == 1 && s.mon.nextCount > 0
    ensures Apply(s, ExitOp).Some?
    ensures Apply(s, ExitOp).value.mon.mutexSem == 0
    ensures Apply(s, EnterOp).None? && Apply(Apply(s, ExitOp).value, EnterOp).None?
  {
  }
}
