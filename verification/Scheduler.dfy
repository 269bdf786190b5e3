/** Threads and the scheduler (threads/scheduler.cc, threads/thread.cc): the
    context switch as a change of the current thread, with the thread that
    comes back from SWITCH deleting the one that finished before it. */
module Schedulers {
  import opened Semaphores
  import opened Sequences
  import opened Wrappers

  /** A wait queue: one per semaphore. */
  type Queue = int

  datatype Status = JustCreated | Running | Ready | Blocked

  datatype Mode =
    | Normal                       // the current thread runs
    | Choosing(finishing: bool)    // in Sleep, waiting for a thread to be ready
    | Arrived                      // back from SWITCH, CheckToBeDestroyed is next

  /** `status` holds the threads that exist, `finished` those that have given up
      the processor for good. */
  datatype State = State(
    current: Tid, ready: seq<Tid>, queues: map<Queue, seq<Tid>>, status: map<Tid, Status>,
    toBeDestroyed: Option<Tid>, mode: Mode, finished: set<Tid>)

  datatype Event =
    | New(t: Tid)         // a thread object is constructed
    | Fork(t: Tid)
    | Yield
    | Sleep(q: Queue)     // the current thread joins a queue and calls Sleep
    | Finish
    | Wake(q: Queue)      // V, by the current thread or an interrupt handler
    | Pick                // Sleep has found a ready thread: Run
    | Cleanup             // CheckToBeDestroyed

  function Queued(s: State, q: Queue): seq<Tid> {
    if q in s.queues then s.queues[q] else []
  }

  /** Handlers run while Sleep idles, but not between SWITCH and the check. */
  predicate Enabled(s: State, e: Event) {
    match e
    case New(t) => s.mode.Normal? && t !in s.status && t !in s.finished
    case Fork(t) => s.mode.Normal? && t in s.status && s.status[t].JustCreated?
    case Yield => s.mode.Normal?
    case Sleep(_) => s.mode.Normal?
    case Finish => s.mode.Normal?
    case Wake(_) => !s.mode.Arrived?
    case Pick => s.mode.Choosing? && s.ready != []
    case Cleanup => s.mode.Arrived?
  }

  function MadeReady(s: State, t: Tid): State {
    s.(status := s.status[t := Ready], ready := s.ready + [t])
  }

  function Dispatched(s: State, next: Tid, finishing: bool): State {
    s.(current := next, status := s.status[next := Running], mode := Arrived,
       toBeDestroyed := if finishing then Some(s.current) else s.toBeDestroyed,
       finished := if finishing then s.finished + {s.current} else s.finished)
  }

  function Next(s: State, e: Event): State
    requires Enabled(s, e)
  {
    match e
    case New(t) => s.(status := s.status[t := JustCreated])
    case Fork(t) => MadeReady(s, t)
    case Yield =>
      if s.ready == [] then s
      else Dispatched(MadeReady(s.(ready := s.ready[1..]), s.current), s.ready[0], false)
    case Sleep(q) =>
      s.(queues := s.queues[q := Queued(s, q) + [s.current]],
         status := s.status[s.current := Blocked], mode := Choosing(false))
    case Finish => s.(status := s.status[s.current := Blocked], mode := Choosing(true))
    case Wake(q) =>
      if Queued(s, q) == [] then s
      else MadeReady(s.(queues := s.queues[q := Queued(s, q)[1..]]), Queued(s, q)[0])
    case Pick => Dispatched(s.(ready := s.ready[1..]), s.ready[0], s.mode.finishing)
    case Cleanup =>
      s.(mode := Normal, toBeDestroyed := None,
         status := if s.toBeDestroyed.Some? then s.status - {s.toBeDestroyed.value} else s.status)
  }

  /** The kernel starts with the main thread running. */
  function Boot(main: Tid): State {
    State(main, [], map[], map[main := Running], None, Normal, {})
  }

  // ---------- The code ----------

  class Scheduler {
    var currentThread: Tid
    var readyList: seq<Tid>
    var toBeDestroyed: Option<Tid>
    var status: map<Tid, Status>
    ghost var queues: map<Queue, seq<Tid>>
    ghost var mode: Mode
    ghost var finished: set<Tid>

    ghost function Abs(): State
      reads this
    {
      State(currentThread, readyList, queues, status, toBeDestroyed, mode, finished)
    }

    constructor (main: Tid)
      ensures Abs() == Boot(main)
    {
      currentThread, readyList, toBeDestroyed := main, [], None;
      status := map[main := Running];
      queues, mode, finished := map[], Normal, {};
    }

    method ReadyToRun(thread: Tid)
      modifies this
      ensures Abs() == MadeReady(old(Abs()), thread)
      ensures readyList == old(readyList) + [thread]
    {
      status := status[thread := Ready];
      readyList := readyList + [thread];
    }

    method FindNextToRun() returns (next: Option<Tid>)
      modifies this
      ensures next == if old(readyList) == [] then None else Some(old(readyList)[0])
      ensures Abs() == old(Abs()).(ready := if next.None? then [] else old(readyList)[1..])
    {
      if readyList == [] { return None; }
      next := Some(readyList[0]);
      readyList := readyList[1..];
    }

    /** Up to SWITCH, which goes on in `nextThread`.  The precondition is the
        assertion in the code. */
    method Run(nextThread: Tid, finishing: bool)
      requires finishing ==> toBeDestroyed == None
      modifies this
      ensures Abs() == Dispatched(old(Abs()), nextThread, finishing)
    {
      if finishing {
        toBeDestroyed := Some(currentThread);
        finished := finished + {currentThread};
      }
      currentThread := nextThread;
      status := status[nextThread := Running];
      mode := Arrived;
    }

    method CheckToBeDestroyed()
      requires Enabled(Abs(), Event.Cleanup)
      modifies this
      ensures Abs() == Next(old(Abs()), Event.Cleanup)
    {
      if toBeDestroyed.Some? {
        status := status - {toBeDestroyed.value};
        toBeDestroyed := None;
      }
      mode := Normal;
    }

    method YieldThread()
      requires Enabled(Abs(), Event.Yield)
      modifies this
      ensures Abs() == Next(old(Abs()), Event.Yield)
    {
      var nextThread := FindNextToRun();
      if nextThread.Some? {
        ReadyToRun(currentThread);
        Run(nextThread.value, false);
      }
    }

    /** The end of `Sleep`, once a thread is ready. */
    method SwitchFromSleep(finishing: bool)
      requires Enabled(Abs(), Event.Pick) && Inv(Abs()) && mode == Choosing(finishing)
      modifies this
      ensures Abs() == Next(old(Abs()), Event.Pick)
    {
      var nextThread := FindNextToRun();
      Run(nextThread.value, finishing);
    }
  }

  // ---------- The invariant ----------

  predicate InQueue(s: State, t: Tid, q: Queue) {
    t in Queued(s, q)
  }

  ghost predicate Waits(s: State, t: Tid) {
    exists q :: InQueue(s, t, q)
  }

  predicate Leaving(s: State, t: Tid) {
    t == s.current && s.mode == Choosing(true)
  }

  /** Everything the invariant says about one thread. */
  ghost predicate Fits(s: State, t: Tid) {
    && (t in s.ready ==> t in s.status && s.status[t].Ready?)
    && (Waits(s, t) ==> t in s.status && s.status[t].Blocked?)
    && (t in s.status ==>
          match s.status[t]
          case JustCreated => t != s.current && t !in s.finished
          case Ready => t in s.ready && t !in s.finished
          case Running => t == s.current && !s.mode.Choosing? && t !in s.finished
          case Blocked =>
            || (Waits(s, t) && t !in s.finished && s.toBeDestroyed != Some(t))
            || (!Waits(s, t) && Leaving(s, t) && t !in s.finished)
            || (!Waits(s, t) && s.toBeDestroyed == Some(t)))
    && (t == s.current ==> t in s.status && !s.status[t].JustCreated? && s.toBeDestroyed != Some(t))
    && (t == s.current && !s.mode.Choosing? ==> s.status[t].Running?)
    && (Leaving(s, t) ==> s.status[t].Blocked? && !Waits(s, t))
    && (s.toBeDestroyed == Some(t) ==> t in s.finished && t in s.status)
  }

  ghost predicate Inv(s: State) {
    && (forall t :: Fits(s, t))
    && (s.toBeDestroyed.Some? ==> s.mode.Arrived?)
    && Distinct(s.ready)
    && (forall q :: Distinct(Queued(s, q)))
    && (forall t, q, r | InQueue(s, t, q) && InQueue(s, t, r) :: q == r)
  }

  // ---------- Every step keeps it ----------

  /** Steps that leave the queues alone leave the waiting threads alone. */
  lemma SameWaits(s: State, s': State, t: Tid)
    requires s'.queues == s.queues
    ensures Waits(s', t) <==> Waits(s, t)
  {
    if Waits(s, t) {
      var q :| InQueue(s, t, q);
      assert InQueue(s', t, q);
    }
    if Waits(s', t) {
      var q :| InQueue(s', t, q);
      assert InQueue(s, t, q);
    }
  }

  lemma SameQueues(s: State, s': State)
    requires Inv(s) && s'.queues == s.queues
    ensures forall q :: Distinct(Queued(s', q))
    ensures forall t, q, r | InQueue(s', t, q) && InQueue(s', t, r) :: q == r
  {
    forall q ensures Distinct(Queued(s', q)) { assert Distinct(Queued(s, q)); }
    forall t, q, r | InQueue(s', t, q) && InQueue(s', t, r)
      ensures q == r
    { assert InQueue(s, t, q) && InQueue(s, t, r); }
  }

  lemma QuietKeeps(s: State, e: Event)
    requires Inv(s) && Enabled(s, e) && (e.New? || e.Fork? || e.Finish? || e.Cleanup?)
    ensures Inv(Next(s, e))
  {
    var s' := Next(s, e);
    assert Fits(s, s.current);
    forall u ensures Fits(s', u) {
      assert Fits(s, u);
      SameWaits(s, s', u);
    }
    SameQueues(s, s');
    if e.Fork? { assert Fits(s, e.t); }
  }

  lemma YieldKeeps(s: State)
    requires Inv(s) && Enabled(s, Yield)
    ensures Inv(Next(s, Yield))
  {
    if s.ready != [] {
      var s' := Next(s, Yield);
      var n := s.ready[0];
      assert s.ready == [n] + s.ready[1..];
      assert Fits(s, s.current) && Fits(s, n);
      forall u ensures Fits(s', u) {
        assert Fits(s, u);
        assert u in s.ready <==> u == n || u in s.ready[1..];
        SameWaits(s, s', u);
      }
      SameQueues(s, s');
    }
  }

  /** Also when the thread found is the one that sleeps. */
  lemma PickKeeps(s: State)
    requires Inv(s) && Enabled(s, Pick)
    ensures Inv(Next(s, Pick))
  {
    var s' := Next(s, Pick);
    var n := s.ready[0];
    assert s.ready == [n] + s.ready[1..];
    assert Fits(s, s.current) && Fits(s, n);
    forall u ensures Fits(s', u) {
      assert Fits(s, u);
      assert u in s.ready <==> u == n || u in s.ready[1..];
      SameWaits(s, s', u);
    }
    SameQueues(s, s');
  }

  lemma SleepKeeps(s: State, q: Queue)
    requires Inv(s) && Enabled(s, Sleep(q))
    ensures Inv(Next(s, Sleep(q)))
  {
    var s' := Next(s, Sleep(q));
    assert Fits(s, s.current);
    assert !InQueue(s, s.current, q);
    forall u, r ensures InQueue(s', u, r) <==> InQueue(s, u, r) || (u == s.current && r == q) {}
    assert InQueue(s', s.current, q);
    forall u ensures Fits(s', u) {
      assert Fits(s, u);
      if u != s.current && Waits(s, u) {
        var r :| InQueue(s, u, r);
        assert InQueue(s', u, r);
      }
    }
    assert Distinct(Queued(s, q));
    forall r ensures Distinct(Queued(s', r)) { assert Distinct(Queued(s, r)); }
  }

  lemma WakeKeeps(s: State, q: Queue)
    requires Inv(s) && Enabled(s, Wake(q))
    ensures Inv(Next(s, Wake(q)))
  {
    var old' := Queued(s, q);
    if old' != [] {
      var s', w := Next(s, Wake(q)), old'[0];
      assert old' == [w] + old'[1..] && Distinct(old');
      assert InQueue(s, w, q) && Fits(s, w);
      forall u, r ensures InQueue(s', u, r) <==> InQueue(s, u, r) && u != w {
        if InQueue(s, w, r) { assert r == q; }
        assert u in old' <==> u == w || u in old'[1..];
      }
      forall u ensures Fits(s', u) {
        assert Fits(s, u);
        if u != w && Waits(s, u) {
          var r :| InQueue(s, u, r);
          assert InQueue(s', u, r);
        }
      }
      forall r ensures Distinct(Queued(s', r)) { assert Distinct(Queued(s, r)); }
    }
  }

  lemma StepKeeps(s: State, e: Event)
    requires Inv(s) && Enabled(s, e)
    ensures Inv(Next(s, e))
  {
    match e
    case Yield => YieldKeeps(s);
    case Sleep(q) => SleepKeeps(s, q);
    case Wake(q) => WakeKeeps(s, q);
    case Pick => PickKeeps(s);
    case _ => QuietKeeps(s, e);
  }

  // ---------- Every run ----------

  predicate Feasible(s: State, es: seq<Event>)
    decreases |es|
  {
    es != [] ==> Enabled(s, es[0]) && Feasible(Next(s, es[0]), es[1..])
  }

  function After(s: State, es: seq<Event>): State
    requires Feasible(s, es)
    decreases |es|
  {
    if es == [] then s else After(Next(s, es[0]), es[1..])
  }

  lemma {:induction false} RunKeeps(s: State, es: seq<Event>)
    requires Inv(s) && Feasible(s, es)
    ensures Inv(After(s, es))
    decreases |es|
  {
    if es != [] {
      StepKeeps(s, es[0]);
      RunKeeps(Next(s, es[0]), es[1..]);
    }
  }

  lemma ReachableInv(main: Tid, es: seq<Event>)
    requires Feasible(Boot(main), es)
    ensures Inv(After(Boot(main), es))
  {
    forall t ensures Fits(Boot(main), t) {}
    RunKeeps(Boot(main), es);
  }

  // ---------- First come, first served ----------

  /** The thread that a step makes ready, if any. */
  function Readies(s: State, e: Event): seq<Tid>
    requires Enabled(s, e)
  {
    match e
    case Fork(t) => [t]
    case Yield => if s.ready == [] then [] else [s.current]
    case Wake(q) => if Queued(s, q) == [] then [] else [Queued(s, q)[0]]
    case _ => []
  }

  /** The thread to which a step gives the processor, if it switches at all. */
  function Dispatches(s: State, e: Event): seq<Tid>
    requires Enabled(s, e)
  {
    var s' := Next(s, e);
    if s'.mode.Arrived? && !s.mode.Arrived? then [s'.current] else []
  }

  /** The threads made ready in a run, in that order. */
  function ReadiedIn(s: State, es: seq<Event>): seq<Tid>
    requires Feasible(s, es)
    decreases |es|
  {
    if es == [] then [] else Readies(s, es[0]) + ReadiedIn(Next(s, es[0]), es[1..])
  }

  /** The threads that get the processor in a run, in that order. */
  function DispatchedIn(s: State, es: seq<Event>): seq<Tid>
    requires Feasible(s, es)
    decreases |es|
  {
    if es == [] then [] else Dispatches(s, es[0]) + DispatchedIn(Next(s, es[0]), es[1..])
  }

  lemma StepServes(s: State, e: Event)
    requires Enabled(s, e)
    ensures Dispatches(s, e) + Next(s, e).ready == s.ready + Readies(s, e)
  {
  }

  /** Threads get the processor in exactly the order in which they became ready,
      whatever happens in between. */
  lemma {:induction false} FirstReadyFirstRun(s: State, es: seq<Event>)
    requires Feasible(s, es)
    ensures DispatchedIn(s, es) + After(s, es).ready == s.ready + ReadiedIn(s, es)
    decreases |es|
  {
    if es != [] {
      StepServes(s, es[0]);
      FirstReadyFirstRun(Next(s, es[0]), es[1..]);
      Chained(Dispatches(s, es[0]), Next(s, es[0]).ready, s.ready, Readies(s, es[0]),
              DispatchedIn(Next(s, es[0]), es[1..]), After(s, es).ready, ReadiedIn(Next(s, es[0]), es[1..]));
    }
  }

  /** How often the current thread yields, or one that sleeps picks another. */
  function Turns(es: seq<Event>): nat {
    if es == [] then 0 else (if es[0].Yield? || es[0].Pick? then 1 else 0) + Turns(es[1..])
  }

  /** A Yield with a thread on the ready list, and every Pick, does switch, and to
      the front of the list. */
  lemma TurnSwitches(s: State, e: Event)
    requires Enabled(s, e) && (e.Yield? || e.Pick?) && s.ready != []
    ensures Dispatches(s, e) == [s.ready[0]] && Next(s, e).current == s.ready[0]
  {
  }

  lemma {:induction false} EnoughTurns(s: State, es: seq<Event>, k: nat)
    requires Feasible(s, es) && k < |s.ready| && k < Turns(es)
    ensures k < |DispatchedIn(s, es)|
    decreases |es|
  {
    var s' := Next(s, es[0]);
    StepServes(s, es[0]);
    if es[0].Yield? || es[0].Pick? {
      TurnSwitches(s, es[0]);
      if k > 0 { EnoughTurns(s', es[1..], k - 1); }
    } else {
      EnoughTurns(s', es[1..], k);
    }
  }

  /** No thread on the ready list starves: the one at position k is the (k + 1)-th
      to get the processor, at the latest at the (k + 1)-th Yield or Pick. */
  lemma NoStarvation(s: State, es: seq<Event>, k: nat)
    requires Feasible(s, es) && k < |s.ready|
    ensures k < |DispatchedIn(s, es)| ==> DispatchedIn(s, es)[k] == s.ready[k]
    ensures k < Turns(es) ==> k < |DispatchedIn(s, es)|
  {
    FirstReadyFirstRun(s, es);
    if k < |DispatchedIn(s, es)| {
      assert (DispatchedIn(s, es) + After(s, es).ready)[k] == (s.ready + ReadiedIn(s, es))[k];
    }
    if k < Turns(es) { EnoughTurns(s, es, k); }
  }

  /** A thread that is created and forked runs after those that are ready before
      it. */
  lemma ForkedThreadRuns(s: State, t: Tid, es: seq<Event>)
    requires Enabled(s, New(t))
    requires Feasible(Next(Next(s, New(t)), Fork(t)), es) && Turns(es) > |s.ready|
    ensures var s' := Next(Next(s, New(t)), Fork(t));
            |DispatchedIn(s', es)| > |s.ready| && DispatchedIn(s', es)[|s.ready|] == t
  {
    NoStarvation(Next(Next(s, New(t)), Fork(t)), es, |s.ready|);
  }

  /** The thread that a step puts to sleep on q, if any. */
  function Sleeps(s: State, e: Event, q: Queue): seq<Tid>
    requires Enabled(s, e)
  {
    if e == Sleep(q) then [s.current] else []
  }

  /** The thread that a wakeup on q makes ready, if any. */
  function Wakes(s: State, e: Event, q: Queue): seq<Tid>
    requires Enabled(s, e)
  {
    if e == Wake(q) then Next(s, e).ready[|s.ready|..] else []
  }

  function SleptIn(s: State, es: seq<Event>, q: Queue): seq<Tid>
    requires Feasible(s, es)
    decreases |es|
  {
    if es == [] then [] else Sleeps(s, es[0], q) + SleptIn(Next(s, es[0]), es[1..], q)
  }

  function WokenIn(s: State, es: seq<Event>, q: Queue): seq<Tid>
    requires Feasible(s, es)
    decreases |es|
  {
    if es == [] then [] else Wakes(s, es[0], q) + WokenIn(Next(s, es[0]), es[1..], q)
  }

  lemma StepWakes(s: State, e: Event, q: Queue)
    requires Enabled(s, e)
    ensures Wakes(s, e, q) + Queued(Next(s, e), q) == Queued(s, q) + Sleeps(s, e, q)
  {
    if e == Wake(q) && Queued(s, q) != [] { assert Wakes(s, e, q) == [Queued(s, q)[0]]; }
  }

  /** The threads on a wait queue are woken in the order in which they went to
      sleep on it. */
  lemma {:induction false} FirstAsleepFirstWoken(s: State, es: seq<Event>, q: Queue)
    requires Feasible(s, es)
    ensures WokenIn(s, es, q) + Queued(After(s, es), q) == Queued(s, q) + SleptIn(s, es, q)
    decreases |es|
  {
    if es != [] {
      var s' := Next(s, es[0]);
      StepWakes(s, es[0], q);
      FirstAsleepFirstWoken(s', es[1..], q);
      Chained(Wakes(s, es[0], q), Queued(s', q), Queued(s, q), Sleeps(s, es[0], q),
              WokenIn(s', es[1..], q), Queued(After(s, es), q), SleptIn(s', es[1..], q));
    }
  }

  // ---------- Exactly one place ----------

  datatype Place = OnCpu | OnReadyList | OnQueue(q: Queue) | NotForked | Gone

  predicate At(s: State, t: Tid, p: Place) {
    match p
    case OnCpu => s.current == t
    case OnReadyList => t in s.ready
    case OnQueue(q) => InQueue(s, t, q)
    case NotForked => t in s.status && s.status[t].JustCreated?
    case Gone => t in s.finished
  }

  function StatusAt(p: Place): Status
    requires !p.Gone?
  {
    match p
    case OnCpu => Running
    case OnReadyList => Ready
    case OnQueue(_) => Blocked
    case NotForked => JustCreated
  }

  /** At every completed context switch each thread is in exactly one place,
      with the status that belongs to it, and in no list twice. */
  lemma ExactlyOnePlace(main: Tid, es: seq<Event>, t: Tid) returns (p: Place)
    requires Feasible(Boot(main), es) && After(Boot(main), es).mode.Normal?
    requires var s := After(Boot(main), es); t in s.status || t in s.finished
    ensures var s := After(Boot(main), es);
            && At(s, t, p)
            && (forall r | At(s, t, r) :: r == p)
            && (p.Gone? || (t in s.status && s.status[t] == StatusAt(p)))
            && Distinct(s.ready)
            && (p.OnQueue? ==> Distinct(Queued(s, p.q)))
  {
    ReachableInv(main, es);
    var s := After(Boot(main), es);
    assert Fits(s, t);
    if t in s.finished {
      p := Gone;
    } else {
      match s.status[t]
      case JustCreated => p := NotForked;
      case Running => p := OnCpu;
      case Ready => p := OnReadyList;
      case Blocked =>
        var q :| InQueue(s, t, q);
        p := OnQueue(q);
    }
    forall r | At(s, t, r) ensures r == p {
      if r.OnQueue? { assert InQueue(s, t, r.q); }
    }
  }

  /** A finished thread never runs again and is never made ready again. */
  lemma {:induction false} FinishedStaysFinished(s: State, es: seq<Event>, t: Tid)
    requires Inv(s) && Feasible(s, es) && t in s.finished
    ensures var s' := After(s, es); t in s'.finished && s'.current != t && t !in s'.ready
    decreases |es|
  {
    assert Fits(s, t);
    if es != [] {
      StepKeeps(s, es[0]);
      FinishedStaysFinished(Next(s, es[0]), es[1..], t);
    }
  }

  /** The assertion in `Run` and the one in the destructor of a thread. */
  lemma DestructionIsSafe(main: Tid, es: seq<Event>)
    requires Feasible(Boot(main), es)
    ensures var s := After(Boot(main), es);
            && (s.mode == Choosing(true) ==> s.toBeDestroyed == None)
            && (s.toBeDestroyed.Some? ==>
                  && s.toBeDestroyed.value != s.current
                  && s.toBeDestroyed.value in s.finished
                  && s.toBeDestroyed.value in s.status
                  && Enabled(s, Cleanup) && s.toBeDestroyed.value !in Next(s, Cleanup).status)
  {
    ReachableInv(main, es);
    var s := After(Boot(main), es);
    if s.toBeDestroyed.Some? {
      assert Fits(s, s.toBeDestroyed.value) && Fits(s, s.current);
    }
  }

  /** A sleeping thread that is woken while nobody else is ready picks itself,
      and goes on with nothing deleted. */
  lemma SelfPick(main: Tid, es: seq<Event>)
    requires Feasible(Boot(main), es)
    requires var s := After(Boot(main), es); Enabled(s, Pick) && s.ready[0] == s.current
    ensures var s := After(Boot(main), es); var s1 := Next(s, Pick); var s2 := Next(s1, Cleanup);
            && s2.current == s.current && s2.mode.Normal?
            && s2.status == s.status[s.current := Running] && s2.finished == s.finished
  {
    ReachableInv(main, es);
    var s := After(Boot(main), es);
    assert Fits(s, s.current);
    assert s.current in s.ready;
  }
}
