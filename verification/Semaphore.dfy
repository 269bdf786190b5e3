/** Semaphores (threads/synch.cc).  Interrupts are off from the test of the
    value to the decrement or to the switch inside `Sleep`, so one turn of the
    loop in `P` is one atomic step, and `V` is another. */
module Semaphores {

  type Tid = int

  datatype Sem = Sem(value: nat, queue: seq<Tid>)

  /** One turn of the loop in `P` by thread `t`: it passes, or joins the queue. */
  function TryP(s: Sem, t: Tid): Sem {
    if s.value == 0 then s.(queue := s.queue + [t]) else s.(value := s.value - 1)
  }

  /** `V` makes the first sleeper ready and adds one to the value. */
  function Post(s: Sem): Sem {
    Sem(s.value + 1, if s.queue == [] then [] else s.queue[1..])
  }

  class Semaphore {
    var value: int
    var queue: seq<Tid>

    ghost predicate Valid()
      reads this
    {
      value >= 0
    }

    ghost function State(): Sem
      requires Valid()
      reads this
    {
      Sem(value, queue)
    }

    constructor (initialValue: nat)
      ensures Valid() && State() == Sem(initialValue, [])
    {
      value := initialValue;
      queue := [];
    }

    method Attempt(currentThread: Tid) returns (passed: bool)
      requires Valid()
      modifies this
      ensures Valid() && State() == TryP(old(State()), currentThread)
      ensures passed <==> old(value) > 0
      ensures queue == old(queue) + if passed then [] else [currentThread]
    {
      if value == 0 {
        queue := queue + [currentThread];
        return false;
      }
      value := value - 1;
      return true;
    }

    method V() returns (woken: seq<Tid>)
      requires Valid()
      modifies this
      ensures Valid() && State() == Post(old(State()))
      ensures woken + queue == old(queue) && |woken| == if old(queue) == [] then 0 else 1
    {
      woken := [];
      if queue != [] {
        woken := [queue[0]];
        queue := queue[1..];
      }
      value := value + 1;
    }
  }

  lemma Pick<T>(s: set<T>) returns (t: T)
    requires |s| > 0
    ensures t in s
  {
    t :| t in s;
  }
}

/** A semaphore used by any number of threads, in any interleaving. */
module SemaphoreRuns {
  import opened Semaphores
  import opened Sequences

  datatype Phase = Outside | Asleep | Woken

  /** The semaphore, where each thread is, and how many calls have completed. */
  datatype State = State(sem: Sem, initial: nat, phase: map<Tid, Phase>, ps: nat, vs: nat)

  datatype Event =
    | StartP(t: Tid)    // a thread outside calls P
    | Retry(t: Tid)     // a woken thread runs again and tests the value anew
    | CallV             // any thread, or an interrupt handler, calls V

  predicate Enabled(s: State, e: Event) {
    match e
    case StartP(t) => t in s.phase && s.phase[t] == Outside
    case Retry(t) => t in s.phase && s.phase[t] == Woken
    case CallV => true
  }

  function Next(s: State, e: Event): State
    requires Enabled(s, e)
  {
    match e
    case CallV =>
      s.(sem := Post(s.sem), vs := s.vs + 1,
         phase := if s.sem.queue == [] then s.phase else s.phase[s.sem.queue[0] := Woken])
    case _ =>
      if s.sem.value == 0 then s.(sem := TryP(s.sem, e.t), phase := s.phase[e.t := Asleep])
      else s.(sem := TryP(s.sem, e.t), phase := s.phase[e.t := Outside], ps := s.ps + 1)
  }

  ghost function In(phase: map<Tid, Phase>, p: Phase): set<Tid> {
    set t | t in phase && phase[t] == p
  }

  /** The value accounts for every completed call, the queue holds exactly the
      sleepers, and every unit of the value is matched by a thread on its way
      as long as anyone sleeps. */
  ghost predicate Inv(s: State) {
    && s.sem.value == s.initial + s.vs - s.ps
    && Distinct(s.sem.queue)
    && (forall t :: t in s.sem.queue <==> t in s.phase && s.phase[t] == Asleep)
    && (s.sem.queue != [] ==> s.sem.value <= |In(s.phase, Woken)|)
  }

  lemma InMoved(phase: map<Tid, Phase>, t: Tid, p: Phase)
    requires t in phase && p != phase[t]
    ensures In(phase[t := p], p) == In(phase, p) + {t} && t !in In(phase, p)
    ensures In(phase[t := p], phase[t]) == In(phase, phase[t]) - {t} && t in In(phase, phase[t])
    ensures forall q | q != p && q != phase[t] :: In(phase[t := p], q) == In(phase, q)
  {
  }

  lemma CallVKeeps(s: State)
    requires Inv(s)
    ensures Inv(Next(s, CallV))
  {
    if s.sem.queue != [] {
      var t, rest := s.sem.queue[0], s.sem.queue[1..];
      assert t in s.sem.queue;
      InMoved(s.phase, t, Woken);
      assert s.sem.queue == [t] + rest && t !in rest;
    }
  }

  lemma StepKeeps(s: State, e: Event)
    requires Inv(s) && Enabled(s, e)
    ensures Inv(Next(s, e))
  {
    match e
    case CallV => CallVKeeps(s);
    case StartP(t) =>
      if s.sem.value == 0 {
        InMoved(s.phase, t, Asleep);
      } else {
        assert s.phase[t := Outside] == s.phase;
      }
    case Retry(t) =>
      InMoved(s.phase, t, if s.sem.value == 0 then Asleep else Outside);
  }

  function Start(initial: nat, threads: set<Tid>): State {
    State(Sem(initial, []), initial, map t | t in threads :: Outside, 0, 0)
  }

  predicate Feasible(s: State, es: seq<Event>)
    decreases |es|
  {
    es != [] ==> Enabled(s, es[0]) && Feasible(Next(s, es[0]), es[1..])
  }

  function After(s: State, es: seq<Event>): State
    requires Feasible(s, es)
    decreases |es|
  {
    if es == [] then s else After(Next(s, es[0]), es[1..])
  }

  /** In every interleaving of any number of threads. */
  lemma {:induction false} RunKeeps(s: State, es: seq<Event>)
    requires Inv(s) && Feasible(s, es)
    ensures Inv(After(s, es))
    decreases |es|
  {
    if es != [] {
      StepKeeps(s, es[0]);
      RunKeeps(Next(s, es[0]), es[1..]);
    }
  }

  /** No wakeup is lost, not even when another thread barges in: while the
      value is positive and a thread sleeps, some woken thread is about to test
      the value and would pass. */
  lemma NoLostWakeup(initial: nat, threads: set<Tid>, es: seq<Event>, sleeper: Tid)
    requires Feasible(Start(initial, threads), es)
    requires var s := After(Start(initial, threads), es);
             sleeper in s.phase && s.phase[sleeper] == Asleep && s.sem.value > 0
    ensures var s := After(Start(initial, threads), es);
            exists t :: Enabled(s, Retry(t)) && Next(s, Retry(t)).phase[t] == Outside
  {
    RunKeeps(Start(initial, threads), es);
    var s := After(Start(initial, threads), es);
    assert sleeper in s.sem.queue;
    var t := Pick(In(s.phase, Woken));
    assert Enabled(s, Retry(t)) && Next(s, Retry(t)).phase[t] == Outside;
  }

  /** The value is what the completed calls leave of the initial value. */
  lemma ValueAccounts(initial: nat, threads: set<Tid>, es: seq<Event>)
    requires Feasible(Start(initial, threads), es)
    ensures var s := After(Start(initial, threads), es);
            s.sem.value == initial + s.vs - s.ps && s.initial == initial
            && (s.sem.queue != [] ==> s.sem.value <= |In(s.phase, Woken)|)
  {
    RunKeeps(Start(initial, threads), es);
    InitialKept(Start(initial, threads), es);
  }

  lemma {:induction false} InitialKept(s: State, es: seq<Event>)
    requires Feasible(s, es)
    ensures After(s, es).initial == s.initial
    decreases |es|
  {
    if es != [] { InitialKept(Next(s, es[0]), es[1..]); }
  }

  // ---------- First asleep, first woken ----------

  /** The thread that a step puts to sleep, if any. */
  function Sleeps(s: State, e: Event): seq<Tid>
    requires Enabled(s, e)
  {
    if !e.CallV? && Next(s, e).phase[e.t] == Asleep then [e.t] else []
  }

  /** The thread that a V takes off the queue, if any. */
  function Rouses(s: State, e: Event): seq<Tid>
    requires Enabled(s, e)
  {
    if e.CallV? && s.sem.queue != [] then [s.sem.queue[0]] else []
  }

  function SleptIn(s: State, es: seq<Event>): seq<Tid>
    requires Feasible(s, es)
    decreases |es|
  {
    if es == [] then [] else Sleeps(s, es[0]) + SleptIn(Next(s, es[0]), es[1..])
  }

  function RousedIn(s: State, es: seq<Event>): seq<Tid>
    requires Feasible(s, es)
    decreases |es|
  {
    if es == [] then [] else Rouses(s, es[0]) + RousedIn(Next(s, es[0]), es[1..])
  }

  lemma StepRouses(s: State, e: Event)
    requires Enabled(s, e)
    ensures Rouses(s, e) + Next(s, e).sem.queue == s.sem.queue + Sleeps(s, e)
    ensures forall t | t in s.phase ::
              s.phase[t] != Woken && Next(s, e).phase[t] == Woken ==> Rouses(s, e) == [t]
  {
  }

  lemma {:induction false} RunRouses(s: State, es: seq<Event>)
    requires Feasible(s, es)
    ensures RousedIn(s, es) + After(s, es).sem.queue == s.sem.queue + SleptIn(s, es)
    decreases |es|
  {
    if es != [] {
      var s' := Next(s, es[0]);
      StepRouses(s, es[0]);
      RunRouses(s', es[1..]);
      Chained(Rouses(s, es[0]), s'.sem.queue, s.sem.queue, Sleeps(s, es[0]),
              RousedIn(s', es[1..]), After(s, es).sem.queue, SleptIn(s', es[1..]));
    }
  }

  /** The k-th wakeup goes to the k-th thread that went to sleep, and the queue
      holds those still to be woken, in that order. */
  lemma FirstAsleepFirstWoken(initial: nat, threads: set<Tid>, es: seq<Event>)
    requires Feasible(Start(initial, threads), es)
    ensures var s := Start(initial, threads);
            && RousedIn(s, es) + After(s, es).sem.queue == SleptIn(s, es)
            && |RousedIn(s, es)| <= |SleptIn(s, es)|
            && (forall k | 0 <= k < |RousedIn(s, es)| :: RousedIn(s, es)[k] == SleptIn(s, es)[k])
  {
    var s := Start(initial, threads);
    RunRouses(s, es);
    assert s.sem.queue + SleptIn(s, es) == SleptIn(s, es);
    forall k | 0 <= k < |RousedIn(s, es)| ensures RousedIn(s, es)[k] == SleptIn(s, es)[k] {
      assert (RousedIn(s, es) + After(s, es).sem.queue)[k] == RousedIn(s, es)[k];
    }
  }
}
