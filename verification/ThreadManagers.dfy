/** The threads of one benchmark run and the thread that waits for all of them to finish. */
module ThreadManagers {
  import opened PhaseBarrier

  /** The locked or atomic regions of NotifyThreadComplete and WaitForAllThreads. */
  class ThreadManager {
    var aliveThreads: int
    const startStopBarrier: Barrier

    constructor (numThreads: int)
      ensures aliveThreads == numThreads && startStopBarrier.State() == Counters(numThreads, 0, 0)
      ensures fresh(startStopBarrier)
    {
      aliveThreads := numThreads;
      startStopBarrier := new Barrier(numThreads);
    }

    /** The atomic decrement; the thread that takes the count to zero has to notify. */
    method Decrement() returns (last: bool)
      modifies `aliveThreads
      ensures aliveThreads == old(aliveThreads) - 1 && (last <==> aliveThreads == 0)
    {
      aliveThreads := aliveThreads - 1;
      last := aliveThreads == 0;
    }

    /** The condition the waiting thread sleeps on. */
    method AllDone() returns (done: bool)
      ensures done <==> aliveThreads == 0
    {
      done := aliveThreads == 0;
    }
  }

  /** A benchmark thread: running, off the barrier but still counted as alive, with the last
      decrement behind it and about to notify, or done. */
  datatype Worker = Running | Removed | Signalling | Done

  /** The thread in WaitForAllThreads: it evaluates the condition with the lock held, and going to
      sleep releases the lock. */
  datatype Waiter = Idle | Checking | Deciding | Asleep | Woken | Returned

  datatype Manager = Manager(barrier: System, alive: int, workers: seq<Worker>, waiter: Waiter)

  datatype Move =
    | AtBarrier(e: Event)
    | LeaveBarrier(t: nat)
    | Decrement(t: nat)
    | Signal(t: nat)
    | Lock
    | Check
    | Sleep
    | SpuriousWake

  function Begin(n: nat): Manager {
    Manager(Start(n), n, seq(n, _ => Running), Idle)
  }

  /** The waiter holds the lock. */
  predicate Locked(m: Manager) {
    m.waiter.Checking? || m.waiter.Deciding?
  }

  predicate Allowed(m: Manager, v: Move) {
    match v
    case AtBarrier(e) => Enabled(m.barrier, e) && !e.Remove?
    case LeaveBarrier(t) => t < |m.workers| && m.workers[t].Running? && Enabled(m.barrier, Remove(t))
    case Decrement(t) => t < |m.workers| && m.workers[t].Removed?
    case Signal(t) => t < |m.workers| && m.workers[t].Signalling? && !Locked(m)
    case Lock => m.waiter.Idle? || m.waiter.Woken?
    case Check => m.waiter.Checking?
    case Sleep => m.waiter.Deciding?
    case SpuriousWake => m.waiter.Asleep?
  }

  function Make(m: Manager, v: Move): Manager
    requires Allowed(m, v)
  {
    match v
    case AtBarrier(e) => m.(barrier := Next(m.barrier, e))
    case LeaveBarrier(t) => m.(barrier := Next(m.barrier, Remove(t)), workers := m.workers[t := Removed])
    case Decrement(t) =>
      m.(alive := m.alive - 1, workers := m.workers[t := if m.alive - 1 == 0 then Signalling else Done])
    case Signal(t) =>
      m.(workers := m.workers[t := Done], waiter := if m.waiter.Asleep? then Waiter.Woken else m.waiter)
    case Lock => m.(waiter := Checking)
    case Check => m.(waiter := if m.alive == 0 then Returned else Deciding)
    case Sleep => m.(waiter := Asleep)
    case SpuriousWake => m.(waiter := Waiter.Woken)
  }

  ghost predicate Plays(m: Manager, vs: seq<Move>)
    decreases |vs|
  {
    vs == [] || (Allowed(m, vs[0]) && Plays(Make(m, vs[0]), vs[1..]))
  }

  ghost function Reached(m: Manager, vs: seq<Move>): Manager
    requires Plays(m, vs)
    decreases |vs|
  {
    if vs == [] then m else Reached(Make(m, vs[0]), vs[1..])
  }

  ghost function Alive(m: Manager): set<nat> {
    set t: nat | t < |m.workers| && (m.workers[t].Running? || m.workers[t].Removed?)
  }

  ghost predicate SomeSignalling(m: Manager) {
    exists t: nat :: t < |m.workers| && m.workers[t].Signalling?
  }

  ghost predicate Sound(m: Manager) {
    && Invariant(m.barrier) && |m.workers| == |m.barrier.threads| && m.alive == |Alive(m)|
    && (forall t: nat :: t < |m.workers| ==> (m.workers[t].Running? <==> !m.barrier.threads[t].Gone?))
    && (m.waiter.Returned? ==> m.alive == 0)
    && (m.alive == 0 && (m.waiter.Deciding? || m.waiter.Asleep?) ==> SomeSignalling(m))
  }

  lemma AtBarrierKeeps(m: Manager, e: Event)
    requires Sound(m) && Allowed(m, AtBarrier(e))
    ensures Sound(Make(m, AtBarrier(e)))
  {
    var r := Make(m, AtBarrier(e));
    NextKeeps(m.barrier, e);
    OthersRemain(m.barrier, e);
    hide Next, Invariant, Enabled;
    assert Alive(r) == Alive(m);
    assert SomeSignalling(r) == SomeSignalling(m);
  }

  /** Only the thread that removes itself leaves the barrier for good. */
  lemma OthersRemain(s: System, e: Event)
    requires Invariant(s) && Enabled(s, e)
    ensures |Next(s, e).threads| == |s.threads|
    ensures forall t: nat :: t < |s.threads| ==>
      (Next(s, e).threads[t].Gone? <==> s.threads[t].Gone? || e == Remove(t))
  {
  }

  lemma LeaveBarrierKeeps(m: Manager, t: nat)
    requires Sound(m) && Allowed(m, LeaveBarrier(t))
    ensures Sound(Make(m, LeaveBarrier(t)))
  {
    var r := Make(m, LeaveBarrier(t));
    NextKeeps(m.barrier, Remove(t));
    OthersRemain(m.barrier, Remove(t));
    hide Next, Invariant, Enabled;
    assert Alive(r) == Alive(m);
    assert t in Alive(m);
  }

  lemma DecrementKeeps(m: Manager, t: nat)
    requires Sound(m) && Allowed(m, Decrement(t))
    ensures Sound(Make(m, Decrement(t)))
  {
    hide Next, Invariant, Enabled;
    var r := Make(m, Decrement(t));
    assert Alive(r) == Alive(m) - {t} && t in Alive(m);
    assert r.alive == 0 ==> r.workers[t].Signalling?;
  }

  lemma SignalKeeps(m: Manager, t: nat)
    requires Sound(m) && Allowed(m, Signal(t))
    ensures Sound(Make(m, Signal(t)))
  {
    hide Next, Invariant, Enabled;
    assert Alive(Make(m, Signal(t))) == Alive(m);
  }

  lemma MoveKeeps(m: Manager, v: Move)
    requires Sound(m) && Allowed(m, v)
    ensures Sound(Make(m, v))
  {
    match v
    case AtBarrier(e) => AtBarrierKeeps(m, e);
    case LeaveBarrier(t) => LeaveBarrierKeeps(m, t);
    case Decrement(t) => DecrementKeeps(m, t);
    case Signal(t) => SignalKeeps(m, t);
    case _ =>
      hide Next, Invariant, Enabled;
      assert Alive(Make(m, v)) == Alive(m);
      assert SomeSignalling(Make(m, v)) == SomeSignalling(m);
  }

  lemma BeginSound(n: nat)
    ensures Sound(Begin(n))
  {
    StartHolds(n);
    StartSize(n);
    assert Alive(Begin(n)) == Live(Start(n));
  }

  lemma {:induction false} PlayKeeps(m: Manager, vs: seq<Move>)
    requires Sound(m) && Plays(m, vs)
    ensures Sound(Reached(m, vs))
    decreases |vs|
  {
    if vs != [] {
      MoveKeeps(m, vs[0]);
      PlayKeeps(Make(m, vs[0]), vs[1..]);
    }
  }

  ghost predicate AllDone(m: Manager) {
    forall t: nat :: t < |m.workers| ==> m.workers[t].Done?
  }

  lemma NobodyLeft(m: Manager)
    requires Sound(m) && AllDone(m)
    ensures m.alive == 0 && !m.waiter.Asleep? && !m.waiter.Deciding?
  {
    hide Invariant;
    assert Alive(m) == {};
  }

  /** WaitForAllThreads returns only after every thread has finished its work at the barrier, and it
      is never left asleep: when no thread is left to notify it, it is not sleeping. */
  lemma CompletionWait(n: nat, vs: seq<Move>)
    requires Plays(Begin(n), vs)
    ensures var m := Reached(Begin(n), vs);
      && (m.waiter.Returned? ==> Live(m.barrier) == {}
                                 && forall t: nat :: t < |m.workers| ==> m.workers[t].Signalling? || m.workers[t].Done?)
      && (AllDone(m) ==> !m.waiter.Asleep? && !m.waiter.Deciding?)
  {
    BeginSound(n);
    PlayKeeps(Begin(n), vs);
    var m := Reached(Begin(n), vs);
    hide Invariant, Next, Enabled;
    if m.waiter.Returned? {
      forall t: nat | t < |m.workers| ensures m.workers[t].Signalling? || m.workers[t].Done? {
        assert t !in Alive(m);
      }
    }
    if AllDone(m) { NobodyLeft(m); }
  }

  /** Once all threads are done, WaitForAllThreads returns after at most two more steps of its own. */
  lemma WaiterReturns(n: nat, vs: seq<Move>)
    requires Plays(Begin(n), vs) && AllDone(Reached(Begin(n), vs))
    ensures var m := Reached(Begin(n), vs);
      exists us :: Plays(m, us) && |us| <= 2 && Reached(m, us).waiter.Returned?
  {
    BeginSound(n);
    PlayKeeps(Begin(n), vs);
    var m := Reached(Begin(n), vs);
    NobodyLeft(m);
    hide Sound, AllDone;
    if m.waiter.Returned? {
      assert Plays(m, []) && Reached(m, []).waiter.Returned?;
    } else if m.waiter.Checking? {
      CheckReturns(m);
    } else {
      CheckReturns(Make(m, Lock));
      var us := [Lock, Check];
      assert us[1..] == [Check];
      assert Plays(m, us) && Reached(m, us) == Reached(Make(m, Lock), [Check]);
    }
  }

  lemma CheckReturns(m: Manager)
    requires m.waiter.Checking? && m.alive == 0
    ensures Plays(m, [Check]) && Reached(m, [Check]).waiter.Returned?
  {
    var us := [Check];
    assert us[1..] == [] && Plays(Make(m, Check), []) && Reached(Make(m, Check), []) == Make(m, Check);
    assert Reached(m, us) == Reached(Make(m, us[0]), us[1..]);
  }
}
