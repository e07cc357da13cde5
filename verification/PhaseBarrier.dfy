/** A reusable barrier that threads may leave for good between phases.

    Every region of the program that runs under the lock is one step, so a run is any sequence of
    such steps by any of the threads.  Condition variables may wake a thread for no reason. */
module PhaseBarrier {
  import opened Sequences

  /** The shared counters, guarded by the lock. */
  datatype Counters = Counters(running: int, phase: int, entered: int)

  /** How a locked region of wait() ends: on the condition variable, or with the result of wait(). */
  datatype Outcome = Blocked | ReturnFalse | ReturnTrue

  function Completed(c: Counters): Counters {
    c.(phase := c.phase + 1, entered := 0)
  }

  /** The region from taking the lock to the first sleep or the end. */
  function Entering(c: Counters): (Counters, Outcome) {
    var d := c.(entered := c.entered + 1);
    if d.entered < d.running then (d, Blocked) else (Completed(d), ReturnTrue)
  }

  /** What a thread that entered in phase waits for. */
  predicate Awake(c: Counters, phase: int) {
    c.phase > phase || c.entered == c.running
  }

  /** The region after a thread has been woken. */
  function Resuming(c: Counters, phase: int): (Counters, Outcome) {
    if !Awake(c, phase) then (c, Blocked)
    else if c.phase > phase then (c, ReturnFalse)
    else (Completed(c), ReturnTrue)
  }

  class Barrier {
    var runningThreads: int
    var phaseNumber: int
    var entered: int

    constructor (numThreads: int)
      ensures State() == Counters(numThreads, 0, 0)
    {
      runningThreads, phaseNumber, entered := numThreads, 0, 0;
    }

    ghost function State(): Counters
      reads this
    {
      Counters(runningThreads, phaseNumber, entered)
    }

    /** The start of createBarrier.  A thread that has to wait keeps the phase it entered in. */
    method Enter() returns (outcome: Outcome, phaseNumberCp: int)
      requires entered < runningThreads
      modifies this
      ensures (State(), outcome) == Entering(old(State()))
      ensures phaseNumberCp == old(phaseNumber)
    {
      entered := entered + 1;
      phaseNumberCp := phaseNumber;
      if entered < runningThreads {
        return Blocked, phaseNumberCp;
      }
      phaseNumber := phaseNumber + 1;
      entered := 0;
      outcome := ReturnTrue;
    }

    /** The rest of createBarrier, each time the condition variable wakes the thread. */
    method Resume(phaseNumberCp: int) returns (outcome: Outcome)
      modifies this
      ensures (State(), outcome) == Resuming(old(State()), phaseNumberCp)
    {
      if !(phaseNumber > phaseNumberCp || entered == runningThreads) {
        return Blocked;
      }
      if phaseNumber > phaseNumberCp {
        return ReturnFalse;
      }
      phaseNumber := phaseNumber + 1;
      entered := 0;
      outcome := ReturnTrue;
    }

    method RemoveThread() returns (notifyAll: bool)
      modifies this
      ensures State() == old(State()).(running := old(runningThreads) - 1)
      ensures notifyAll <==> entered != 0
    {
      runningThreads := runningThreads - 1;
      notifyAll := entered != 0;
    }
  }

  // The threads.

  /** Where a thread is.  Outside carries the number of phases the thread has completed, the others
      the phase it is in: asleep on the condition variable, woken but without the lock, or through
      with the lock and about to notify the others. */
  datatype Thread = Outside(phase: int) | Sleeping(phase: int) | Ready(phase: int) | Notifying(phase: int) | Gone

  datatype System = System(c: Counters, threads: seq<Thread>)

  datatype Event = Enter(t: nat) | Wake(t: nat) | Resume(t: nat) | Notify(t: nat) | Remove(t: nat)

  function Start(n: nat): System {
    System(Counters(n, 0, 0), seq(n, _ => Outside(0)))
  }

  predicate Enabled(s: System, e: Event) {
    e.t < |s.threads| &&
    match e
    case Enter(t) => s.threads[t].Outside?
    case Wake(t) => s.threads[t].Sleeping?
    case Resume(t) => s.threads[t].Ready?
    case Notify(t) => s.threads[t].Notifying?
    case Remove(t) => s.threads[t].Outside?
  }

  function Woken(threads: seq<Thread>): seq<Thread> {
    seq(|threads|, i requires 0 <= i < |threads| =>
      if threads[i].Sleeping? then Ready(threads[i].phase) else threads[i])
  }

  function Moved(phase: int, o: Outcome): Thread {
    match o
    case Blocked => Sleeping(phase)
    case ReturnFalse => Outside(phase + 1)
    case ReturnTrue => Notifying(phase)
  }

  function Next(s: System, e: Event): System
    requires Enabled(s, e)
  {
    match e
    case Enter(t) =>
      var (c, o) := Entering(s.c);
      System(c, s.threads[t := Moved(s.c.phase, o)])
    case Wake(t) =>
      s.(threads := s.threads[t := Ready(s.threads[t].phase)])
    case Resume(t) =>
      var (c, o) := Resuming(s.c, s.threads[t].phase);
      System(c, s.threads[t := Moved(s.threads[t].phase, o)])
    case Notify(t) =>
      s.(threads := Woken(s.threads[t := Outside(s.threads[t].phase + 1)]))
    case Remove(t) =>
      var threads := s.threads[t := Gone];
      System(s.c.(running := s.c.running - 1), if s.c.entered != 0 then Woken(threads) else threads)
  }

  ghost predicate Runs(s: System, es: seq<Event>)
    decreases |es|
  {
    es == [] || (Enabled(s, es[0]) && Runs(Next(s, es[0]), es[1..]))
  }

  ghost function After(s: System, es: seq<Event>): System
    requires Runs(s, es)
    decreases |es|
  {
    if es == [] then s else After(Next(s, es[0]), es[1..])
  }

  // The invariant.

  ghost function Live(s: System): set<nat> {
    set i: nat | i < |s.threads| && !s.threads[i].Gone?
  }

  predicate WaitsIn(x: Thread, phase: int) {
    (x.Sleeping? || x.Ready?) && x.phase == phase
  }

  /** The threads that have entered the current phase. */
  ghost function Waiting(s: System): set<nat> {
    set i: nat | i < |s.threads| && WaitsIn(s.threads[i], s.c.phase)
  }

  /** A live thread is in the current phase, or still on its way out of the last one. */
  predicate InStep(x: Thread, phase: int) {
    match x
    case Outside(p) => p == phase
    case Sleeping(p) => p == phase || p == phase - 1
    case Ready(p) => p == phase || p == phase - 1
    case Notifying(p) => p == phase - 1
    case Gone => true
  }

  ghost predicate SomeNotifying(s: System) {
    exists j: nat :: j < |s.threads| && s.threads[j].Notifying?
  }

  ghost predicate Invariant(s: System) {
    && s.c.running == |Live(s)|
    && s.c.entered == |Waiting(s)|
    && (forall i: nat :: i < |s.threads| ==> InStep(s.threads[i], s.c.phase))
    && NoLostWakeup(s)
  }

  /** A thread asleep although its condition holds is about to be notified. */
  ghost predicate NoLostWakeup(s: System) {
    forall i: nat :: i < |s.threads| && s.threads[i].Sleeping? && Awake(s.c, s.threads[i].phase) ==> SomeNotifying(s)
  }

  /** The check at the start of createBarrier never fails: a live thread outside has not entered. */
  lemma EnterAllowed(s: System, t: nat)
    requires Invariant(s) && t < |s.threads| && s.threads[t].Outside?
    ensures s.c.entered < s.c.running
  {
    assert Waiting(s) <= Live(s) - {t};
    SubsetSize(Waiting(s), Live(s) - {t});
  }

  /** When everybody who is left has entered, every live thread waits in the current phase. */
  lemma AllWaiting(s: System)
    requires Invariant(s) && s.c.entered == s.c.running
    ensures forall i <- Live(s) :: WaitsIn(s.threads[i], s.c.phase)
  {
    assert Waiting(s) <= Live(s);
    SubsetSize(Waiting(s), Live(s));
  }

  /** Completing a phase: thread t, which has entered as everybody else, notifies. */
  lemma PhaseEnds(s: System, t: nat, r: System)
    requires t < |s.threads| && !s.threads[t].Gone?
    requires forall i <- Live(s) - {t} :: WaitsIn(s.threads[i], s.c.phase)
    requires s.c.running == |Live(s)|
    requires r == System(Completed(s.c), s.threads[t := Notifying(s.c.phase)])
    ensures Invariant(r)
  {
    assert Live(r) == Live(s);
    assert Waiting(r) == {} by {
      forall i: nat | i < |r.threads| ensures !WaitsIn(r.threads[i], r.c.phase) {
        assert i != t && !s.threads[i].Gone? ==> i in Live(s) - {t};
      }
    }
    forall i: nat | i < |r.threads| ensures InStep(r.threads[i], r.c.phase) {
      assert i != t && !s.threads[i].Gone? ==> i in Live(s) - {t};
    }
    assert r.threads[t].Notifying?;
  }

  lemma EnterKeeps(s: System, t: nat)
    requires Invariant(s) && Enabled(s, Enter(t))
    ensures Invariant(Next(s, Enter(t)))
  {
    var r := Next(s, Enter(t));
    EnterAllowed(s, t);
    if s.c.entered + 1 < s.c.running {
      assert Live(r) == Live(s) && Waiting(r) == Waiting(s) + {t};
      forall i: nat | i < |r.threads| && r.threads[i].Sleeping? && Awake(r.c, r.threads[i].phase)
        ensures SomeNotifying(r)
      {
        assert s.threads[i].Sleeping? && Awake(s.c, s.threads[i].phase);
        var j: nat :| j < |s.threads| && s.threads[j].Notifying?;
        assert r.threads[j].Notifying?;
      }
    } else {
      assert Waiting(s) <= Live(s) - {t};
      SubsetSize(Waiting(s), Live(s) - {t});
      PhaseEnds(s.(c := s.c.(entered := s.c.entered + 1)), t, r);
    }
  }

  lemma WakeKeeps(s: System, t: nat)
    requires Invariant(s) && Enabled(s, Wake(t))
    ensures Invariant(Next(s, Wake(t)))
  {
    var r := Next(s, Wake(t));
    assert Live(r) == Live(s) && Waiting(r) == Waiting(s);
    forall i: nat | i < |r.threads| && r.threads[i].Sleeping? && Awake(r.c, r.threads[i].phase)
      ensures SomeNotifying(r)
    {
      assert s.threads[i].Sleeping?;
      var j: nat :| j < |s.threads| && s.threads[j].Notifying?;
      assert r.threads[j].Notifying?;
    }
  }

  lemma ResumeKeeps(s: System, t: nat)
    requires Invariant(s) && Enabled(s, Resume(t))
    ensures Invariant(Next(s, Resume(t)))
  {
    var r, phase := Next(s, Resume(t)), s.threads[t].phase;
    if Awake(s.c, phase) && s.c.phase <= phase {
      AllWaiting(s);
      PhaseEnds(s, t, r);
    } else {
      assert Live(r) == Live(s) && Waiting(r) == Waiting(s);
      forall i: nat | i < |r.threads| && r.threads[i].Sleeping? && Awake(r.c, r.threads[i].phase)
        ensures SomeNotifying(r)
      {
        assert i != t && s.threads[i].Sleeping?;
        var j: nat :| j < |s.threads| && s.threads[j].Notifying?;
        assert r.threads[j].Notifying?;
      }
    }
  }

  lemma NotifyKeeps(s: System, t: nat)
    requires Invariant(s) && Enabled(s, Notify(t))
    ensures Invariant(Next(s, Notify(t)))
  {
    var r := Next(s, Notify(t));
    assert Live(r) == Live(s) && Waiting(r) == Waiting(s);
  }

  lemma RemoveKeeps(s: System, t: nat)
    requires Invariant(s) && Enabled(s, Remove(t))
    ensures Invariant(Next(s, Remove(t)))
  {
    var r := Next(s, Remove(t));
    assert Live(r) == Live(s) - {t} && Waiting(r) == Waiting(s);
    if s.c.entered == 0 {
      forall i: nat | i < |r.threads| && r.threads[i].Sleeping? && Awake(r.c, r.threads[i].phase)
        ensures SomeNotifying(r)
      {
        assert i in Live(r);
        assert s.threads[i].Sleeping? && Awake(s.c, s.threads[i].phase);
        var j: nat :| j < |s.threads| && s.threads[j].Notifying?;
        assert r.threads[j].Notifying?;
      }
    }
  }

  lemma NextKeeps(s: System, e: Event)
    requires Invariant(s) && Enabled(s, e)
    ensures Invariant(Next(s, e))
  {
    match e
    case Enter(t) => EnterKeeps(s, t);
    case Wake(t) => WakeKeeps(s, t);
    case Resume(t) => ResumeKeeps(s, t);
    case Notify(t) => NotifyKeeps(s, t);
    case Remove(t) => RemoveKeeps(s, t);
  }

  lemma {:induction false} StartSize(n: nat)
    ensures |Live(Start(n))| == n
  {
    if n == 0 {
      assert Live(Start(0)) == {};
    } else {
      StartSize(n - 1);
      assert Live(Start(n)) == Live(Start(n - 1)) + {n - 1};
    }
  }

  lemma StartHolds(n: nat)
    ensures Invariant(Start(n))
  {
    StartSize(n);
    assert Waiting(Start(n)) == {};
  }

  /** The invariant holds in every state that any interleaving reaches. */
  lemma {:induction false} RunKeeps(s: System, es: seq<Event>)
    requires Invariant(s) && Runs(s, es)
    ensures Invariant(After(s, es))
    decreases |es|
  {
    if es != [] {
      NextKeeps(s, es[0]);
      RunKeeps(Next(s, es[0]), es[1..]);
    }
  }

  // What every run of n threads guarantees.

  /** The event ends a call of wait() by its thread. */
  predicate Returns(s: System, e: Event)
    requires Enabled(s, e)
  {
    e.Notify? || (e.Resume? && Resuming(s.c, s.threads[e.t].phase).1 == ReturnFalse)
  }

  /** The thread has entered the barrier in that phase, at some time. */
  predicate HasEntered(x: Thread, phase: int)
    requires !x.Gone?
  {
    x.phase > phase || (x.phase == phase && !x.Outside?)
  }

  /** No thread leaves a phase before every live thread has entered it. */
  lemma NobodyLeavesEarly(n: nat, es: seq<Event>, e: Event)
    requires Runs(Start(n), es)
    ensures var s := After(Start(n), es);
      Enabled(s, e) && Returns(s, e) ==> forall u <- Live(s) :: HasEntered(s.threads[u], s.threads[e.t].phase)
  {
    StartHolds(n);
    RunKeeps(Start(n), es);
  }

  /** A thread that calls wait() always finds room, and two live threads are at most a phase apart. */
  lemma PhasesStayTogether(n: nat, es: seq<Event>)
    requires Runs(Start(n), es)
    ensures var s := After(Start(n), es);
      && (forall t <- Live(s) :: s.threads[t].Outside? ==> s.c.entered < s.c.running)
      && (forall t, u :: t in Live(s) && u in Live(s) ==> s.threads[t].phase - 1 <= s.threads[u].phase)
  {
    StartHolds(n);
    RunKeeps(Start(n), es);
    var s := After(Start(n), es);
    forall t <- Live(s) | s.threads[t].Outside? ensures s.c.entered < s.c.running {
      EnterAllowed(s, t);
    }
  }

  /** How often wait() returns true for that phase during the run. */
  ghost function TrueReturns(s: System, es: seq<Event>, phase: int): nat
    requires Runs(s, es)
    decreases |es|
  {
    if es == [] then 0
    else (if es[0].Notify? && s.threads[es[0].t].phase == phase then 1 else 0) + TrueReturns(Next(s, es[0]), es[1..], phase)
  }

  ghost function Pending(s: System, phase: int): set<nat> {
    set i: nat | i < |s.threads| && s.threads[i] == Notifying(phase)
  }

  lemma TrueReturnStep(s: System, e: Event, phase: int)
    requires Invariant(s) && Enabled(s, e)
    ensures var r := Next(s, e);
      && s.c.phase <= r.c.phase <= s.c.phase + 1
      && (if e.Notify? && s.threads[e.t].phase == phase then 1 else 0) + |Pending(r, phase)|
         == |Pending(s, phase)| + (if s.c.phase <= phase < r.c.phase then 1 else 0)
  {
    PendingStep(s, e, phase);
    OthersStay(s, e);
    hide Next, Invariant, Pending;
  }

  lemma PendingStep(s: System, e: Event, phase: int)
    requires Invariant(s) && Enabled(s, e)
    ensures Pending(Next(s, e), phase)
         == if Next(s, e).threads[e.t] == Notifying(phase) then Pending(s, phase) + {e.t} else Pending(s, phase) - {e.t}
    ensures e.t in Pending(s, phase) <==> s.threads[e.t] == Notifying(phase)
  {
    OthersStay(s, e);
    hide Next, Invariant;
  }

  /** A step takes no other thread to or from notifying, and starts to notify just when it completes
      a phase. */
  lemma OthersStay(s: System, e: Event)
    requires Invariant(s) && Enabled(s, e)
    ensures var r := Next(s, e);
      && |r.threads| == |s.threads|
      && (forall i: nat :: i < |s.threads| && i != e.t ==>
            && (r.threads[i].Notifying? <==> s.threads[i].Notifying?)
            && (r.threads[i].Notifying? ==> r.threads[i] == s.threads[i]))
      && (r.threads[e.t].Notifying? <==> r.c.phase != s.c.phase)
      && (r.threads[e.t].Notifying? ==> r.threads[e.t].phase == s.c.phase && r.c.phase == s.c.phase + 1)
      && (r.threads[e.t].Notifying? ==> !s.threads[e.t].Notifying?)
      && (s.threads[e.t].Notifying? <==> e.Notify?)
  {
  }

  lemma {:induction false} TrueReturnsBalance(s: System, es: seq<Event>, phase: int)
    requires Invariant(s) && Runs(s, es)
    ensures var r := After(s, es);
      && s.c.phase <= r.c.phase
      && TrueReturns(s, es, phase) + |Pending(r, phase)|
         == |Pending(s, phase)| + (if s.c.phase <= phase < r.c.phase then 1 else 0)
    decreases |es|
  {
    if es != [] {
      NextKeeps(s, es[0]);
      TrueReturnStep(s, es[0], phase);
      TrueReturnsBalance(Next(s, es[0]), es[1..], phase);
    }
  }

  /** Exactly one wait() of each completed phase returns true, or will as soon as its thread has
      notified the others; none of any other phase does. */
  lemma OneTrueReturnPerPhase(n: nat, es: seq<Event>, phase: int)
    requires Runs(Start(n), es)
    ensures var s := After(Start(n), es);
      TrueReturns(Start(n), es, phase) + |Pending(s, phase)| == if 0 <= phase < s.c.phase then 1 else 0
  {
    StartHolds(n);
    TrueReturnsBalance(Start(n), es, phase);
    assert Pending(Start(n), phase) == {};
  }

  // Progress.

  /** The steps the threads inside wait() take by themselves. */
  predicate Internal(e: Event) {
    e.Resume? || e.Notify?
  }

  ghost function ReadyThreads(s: System): set<nat> {
    set i: nat | i < |s.threads| && s.threads[i].Ready?
  }

  ghost function NotifyingThreads(s: System): set<nat> {
    set i: nat | i < |s.threads| && s.threads[i].Notifying?
  }

  /** Bounds the internal steps that are left: each thread still to notify, or to complete the
      current phase, may wake all the others. */
  ghost function Work(s: System): nat {
    |ReadyThreads(s)| + (|NotifyingThreads(s)| + if s.c.entered != 0 then 1 else 0) * (|s.threads| + 1)
  }

  lemma ReadyStep(s: System, e: Event)
    requires Invariant(s) && Enabled(s, e) && Internal(e)
    ensures var r := Next(s, e);
      && |r.threads| == |s.threads|
      && (if e.Notify? then |ReadyThreads(r)| <= |s.threads| && r.c == s.c
          else |ReadyThreads(r)| == |ReadyThreads(s)| - 1)
      && (r.c.phase != s.c.phase ==> s.c.entered != 0 && r.c.entered == 0)
      && (r.c.phase == s.c.phase ==> r.c == s.c)
  {
    var r := Next(s, e);
    if e.Notify? {
      IndexSetSize(ReadyThreads(r), |s.threads|);
    } else {
      assert ReadyThreads(r) == ReadyThreads(s) - {e.t};
      assert r.c.phase != s.c.phase ==> e.t in Waiting(s);
    }
  }

  lemma NotifyingStep(s: System, e: Event)
    requires Invariant(s) && Enabled(s, e) && Internal(e)
    ensures var r := Next(s, e);
      |NotifyingThreads(r)| == |NotifyingThreads(s)|
                               + (if e.Notify? then -1 else if r.c.phase != s.c.phase then 1 else 0)
  {
    OthersStay(s, e);
    hide Next, Invariant;
    var r := Next(s, e);
    if r.threads[e.t].Notifying? {
      assert NotifyingThreads(r) == NotifyingThreads(s) + {e.t};
    } else {
      assert NotifyingThreads(r) == NotifyingThreads(s) - {e.t};
    }
  }

  lemma OneLess(k: int, m: int)
    ensures (k - 1) * m == k * m - m
  {
  }

  /** The threads that have still to complete a phase or to notify the others of it. */
  ghost function Wakers(s: System): nat {
    |NotifyingThreads(s)| + if s.c.entered != 0 then 1 else 0
  }

  lemma WorkIs(s: System)
    ensures Work(s) == |ReadyThreads(s)| + Wakers(s) * (|s.threads| + 1)
  {
  }

  lemma WakersStep(s: System, e: Event)
    requires Invariant(s) && Enabled(s, e) && Internal(e)
    ensures Wakers(Next(s, e)) == Wakers(s) - if e.Notify? then 1 else 0
  {
    ReadyStep(s, e);
    NotifyingStep(s, e);
    hide Next, Invariant, ReadyThreads, NotifyingThreads;
  }

  lemma InternalStepWorks(s: System, e: Event)
    requires Invariant(s) && Enabled(s, e) && Internal(e)
    ensures Work(Next(s, e)) < Work(s)
  {
    ReadyStep(s, e);
    WakersStep(s, e);
    WorkIs(s);
    WorkIs(Next(s, e));
    hide *;
    OneLess(Wakers(s), |s.threads| + 1);
  }

  lemma {:induction false} IndexSetSize(a: set<nat>, n: nat)
    requires forall i <- a :: i < n
    ensures |a| <= n
  {
    if n == 0 {
      assert a == {};
    } else {
      IndexSetSize(a - {n - 1}, n - 1);
    }
  }

  /** Left to themselves, the threads inside take only so many steps. */
  lemma {:induction false} InternalRunsEnd(s: System, es: seq<Event>)
    requires Invariant(s) && Runs(s, es) && forall e <- es :: Internal(e)
    ensures |es| + Work(After(s, es)) <= Work(s)
    decreases |es|
  {
    if es != [] {
      NextKeeps(s, es[0]);
      InternalStepWorks(s, es[0]);
      InternalRunsEnd(Next(s, es[0]), es[1..]);
    }
  }

  /** No internal step is left. */
  ghost predicate Quiet(s: System) {
    forall i: nat :: i < |s.threads| ==> !s.threads[i].Ready? && !s.threads[i].Notifying?
  }

  /** No deadlock: the threads inside never all sleep while nobody is left outside to enter.  So if
      all live threads are inside, some condition holds and its thread returns after finitely many
      steps, with no help from a spurious wake-up. */
  lemma NoDeadlock(n: nat, es: seq<Event>)
    requires Runs(Start(n), es) && Quiet(After(Start(n), es)) && Live(After(Start(n), es)) != {}
    ensures exists i <- Live(After(Start(n), es)) :: After(Start(n), es).threads[i].Outside?
  {
    StartHolds(n);
    RunKeeps(Start(n), es);
    var s := After(Start(n), es);
    var i :| i in Live(s);
    assert !SomeNotifying(s);
    if !s.threads[i].Outside? {
      assert s.threads[i].Sleeping? && !Awake(s.c, s.threads[i].phase);
      assert Waiting(s) <= Live(s) && Waiting(s) != Live(s);
      var j :| j in Live(s) && j !in Waiting(s);
      assert s.threads[j].Sleeping? ==> !Awake(s.c, s.threads[j].phase);
    }
  }

  /** If all live threads are inside wait(), one of them finds its condition true. */
  lemma SomebodyMayPass(n: nat, es: seq<Event>)
    requires Runs(Start(n), es)
    requires var s := After(Start(n), es);
      Live(s) != {} && forall i <- Live(s) :: s.threads[i].Sleeping? || s.threads[i].Ready?
    ensures var s := After(Start(n), es);
      exists i <- Live(s) :: s.threads[i].Ready? && Awake(s.c, s.threads[i].phase)
  {
    StartHolds(n);
    RunKeeps(Start(n), es);
    var s := After(Start(n), es);
    var i :| i in Live(s);
    if forall j <- Live(s) :: s.threads[j].phase == s.c.phase {
      assert Waiting(s) == Live(s);
      assert Awake(s.c, s.threads[i].phase);
    } else {
      var j :| j in Live(s) && s.threads[j].phase != s.c.phase;
      assert Awake(s.c, s.threads[j].phase);
    }
  }
}
