/** Locks (threads/synch.cc), built on a semaphore with initial value 1.  The
    holder is recorded outside the atomic regions of `P` and `V`, so a thread
    can be switched out between taking the semaphore and being recorded, and
    between being erased and giving the semaphore back. */
module Locks {
  import opened Semaphores
  import opened Sequences
  import opened Wrappers

  datatype Pc =
    | Out       // does not want the lock
    | Asleep    // in the semaphore's queue
    | Woken     // made ready by V, about to test the value again
    | Got       // P is done, lockHolder not yet set
    | Held      // lockHolder is set: the client's critical section
    | Erased    // Release has cleared lockHolder, V is still to come

  datatype Lock = Lock(sem: Sem, holder: Option<Tid>, pc: map<Tid, Pc>)

  datatype Step =
    | Try(t: Tid)      // Acquire: P begins, or goes on after a wakeup
    | Record(t: Tid)   // Acquire: lockHolder = currentThread
    | Erase(t: Tid)    // Release: the assertion, then lockHolder = NULL
    | Give(t: Tid)     // Release: V

  function At(l: Lock, t: Tid): Pc {
    if t in l.pc then l.pc[t] else Out
  }

  /** Clients release only what they have acquired. */
  predicate Enabled(l: Lock, e: Step) {
    match e
    case Try(t) => At(l, t) == Out || At(l, t) == Woken
    case Record(t) => At(l, t) == Got
    case Erase(t) => At(l, t) == Held
    case Give(t) => At(l, t) == Erased
  }

  function Next(l: Lock, e: Step): Lock
    requires Enabled(l, e)
  {
    match e
    case Try(t) => l.(sem := TryP(l.sem, t), pc := l.pc[t := if l.sem.value == 0 then Asleep else Got])
    case Record(t) => l.(holder := Some(t), pc := l.pc[t := Held])
    case Erase(t) => l.(holder := None, pc := l.pc[t := Erased])
    case Give(t) =>
      var pc := l.pc[t := Out];
      l.(sem := Post(l.sem), pc := if l.sem.queue == [] then pc else pc[l.sem.queue[0] := Woken])
  }

  const FREE_LOCK: Lock := Lock(Sem(1, []), None, map[])

  /** Between P and V. */
  predicate Inside(p: Pc) {
    p == Got || p == Held || p == Erased
  }

  ghost function Insiders(l: Lock): set<Tid> {
    set t | t in l.pc && Inside(l.pc[t])
  }

  ghost predicate Inv(l: Lock) {
    && Distinct(l.sem.queue)
    && (forall t :: t in l.sem.queue <==> At(l, t) == Asleep)
    && |Insiders(l)| + l.sem.value == 1
    && (forall t :: At(l, t) == Held <==> l.holder == Some(t))
    && (l.sem.queue != [] && l.sem.value > 0 ==> exists t :: At(l, t) == Woken)
  }

  /** At most one thread is between P and V. */
  lemma OneInside(l: Lock, t: Tid, u: Tid)
    requires Inv(l) && Inside(At(l, t)) && Inside(At(l, u))
    ensures t == u && l.sem.value == 0 && Insiders(l) == {t}
  {
    var i := Insiders(l);
    assert t in i && u in i;
    if i != {t} { SmallerSubset({t}, i); }
  }

  lemma SmallerSubset(a: set<Tid>, b: set<Tid>)
    requires a < b
    ensures |a| < |b|
  {
    var d := b - a;
    assert b == a + d && d != {};
  }

  /** A thread sleeps on the lock only while another is inside, or has been woken
      and will try again. */
  lemma SleeperHasCause(l: Lock, t: Tid) returns (u: Tid)
    requires Inv(l) && At(l, t) == Asleep
    ensures Inside(At(l, u)) || At(l, u) == Woken
  {
    if l.sem.value == 0 {
      u := Pick(Insiders(l));
    } else {
      assert t in l.sem.queue;
      u :| At(l, u) == Woken;
    }
  }

  lemma TryKeeps(l: Lock, t: Tid)
    requires Inv(l) && Enabled(l, Try(t))
    ensures Inv(Next(l, Try(t)))
  {
    var l' := Next(l, Try(t));
    if l.sem.value == 0 {
      assert Insiders(l') == Insiders(l);
    } else {
      assert Insiders(l') == Insiders(l) + {t};
    }
  }

  /** Nobody else is recorded when the thread that got the semaphore is. */
  lemma RecordKeeps(l: Lock, t: Tid)
    requires Inv(l) && Enabled(l, Record(t))
    ensures Inv(Next(l, Record(t)))
  {
    var l' := Next(l, Record(t));
    OneInside(l, t, t);
    assert Insiders(l') == Insiders(l);
    forall u ensures At(l', u) == Held <==> l'.holder == Some(u) {
      if At(l, u) == Held { OneInside(l, t, u); }
    }
  }

  lemma EraseKeeps(l: Lock, t: Tid)
    requires Inv(l) && Enabled(l, Erase(t))
    ensures Inv(Next(l, Erase(t)))
  {
    assert Insiders(Next(l, Erase(t))) == Insiders(l);
  }

  lemma StepKeeps(l: Lock, e: Step)
    requires Inv(l) && Enabled(l, e)
    ensures Inv(Next(l, e))
  {
    match e
    case Try(t) => TryKeeps(l, t);
    case Record(t) => RecordKeeps(l, t);
    case Erase(t) => EraseKeeps(l, t);
    case Give(t) => GiveKeeps(l, t);
  }

  lemma GiveKeeps(l: Lock, t: Tid)
    requires Inv(l) && At(l, t) == Erased
    ensures Inv(Next(l, Give(t)))
  {
    var l' := Next(l, Give(t));
    OneInside(l, t, t);
    if l.sem.queue != [] {
      var w, rest := l.sem.queue[0], l.sem.queue[1..];
      assert w in l.sem.queue && At(l, w) == Asleep && w != t;
      assert l.sem.queue == [w] + rest && w !in rest;
      assert At(l', w) == Woken;
      forall u ensures u in rest <==> At(l', u) == Asleep {
        assert u in rest <==> u in l.sem.queue && u != w;
        assert At(l', u) == if u == t then Out else if u == w then Woken else At(l, u);
      }
    }
    forall u ensures u !in Insiders(l') {
      assert u in Insiders(l') ==> u in Insiders(l);
    }
  }

  // ---------- Every run ----------

  predicate Feasible(l: Lock, es: seq<Step>)
    decreases |es|
  {
    es != [] ==> Enabled(l, es[0]) && Feasible(Next(l, es[0]), es[1..])
  }

  function After(l: Lock, es: seq<Step>): Lock
    requires Feasible(l, es)
    decreases |es|
  {
    if es == [] then l else After(Next(l, es[0]), es[1..])
  }

  lemma {:induction false} RunKeeps(l: Lock, es: seq<Step>)
    requires Inv(l) && Feasible(l, es)
    ensures Inv(After(l, es))
    decreases |es|
  {
    if es != [] {
      StepKeeps(l, es[0]);
      RunKeeps(Next(l, es[0]), es[1..]);
    }
  }

  lemma FreeLockInv()
    ensures Inv(FREE_LOCK)
  {
    assert Insiders(FREE_LOCK) == {};
  }

  /** Mutual exclusion: in every run the threads between P and V and the value
      of the semaphore add up to one, and the recorded holder is nobody or the
      one thread inside. */
  lemma MutualExclusion(es: seq<Step>)
    requires Feasible(FREE_LOCK, es)
    ensures var l := After(FREE_LOCK, es);
            && |Insiders(l)| + l.sem.value == 1
            && (forall t, u | Inside(At(l, t)) && Inside(At(l, u)) :: t == u)
            && (l.holder.Some? ==> Insiders(l) == {l.holder.value})
  {
    FreeLockInv();
    RunKeeps(FREE_LOCK, es);
    var l := After(FREE_LOCK, es);
    forall t, u | Inside(At(l, t)) && Inside(At(l, u))
      ensures t == u
    { OneInside(l, t, u); }
    if l.holder.Some? {
      assert At(l, l.holder.value) == Held;
      OneInside(l, l.holder.value, l.holder.value);
    }
  }

  /** The assertion at the start of `Release` never fails for a client that
      releases what it has acquired. */
  lemma ReleaseAssertionHolds(es: seq<Step>, t: Tid)
    requires Feasible(FREE_LOCK, es) && Enabled(After(FREE_LOCK, es), Erase(t))
    ensures After(FREE_LOCK, es).holder == Some(t)
  {
    FreeLockInv();
    RunKeeps(FREE_LOCK, es);
  }
}
