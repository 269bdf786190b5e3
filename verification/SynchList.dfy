/** Synchronized lists (threads/synchlist.cc) with Mesa-style condition
    variables (threads/synch.cc): `Wait` gives every waiting thread a semaphore
    of its own and releases the lock before it sleeps on it. */
module SynchLists {
  import opened Semaphores
  import opened Sequences
  import opened Sums
  import opened Wrappers
  import L = Locks

  type Item = int

  datatype Task =
    | Idle
    | Appending(item: Item)  // Append: acquiring the lock, then the list's Append
    | Signalling             // Append: the item is on the list, Signal comes next
    | Posting(waiter: Tid)   // Signal: the waiter is off waitQueue, its V comes next
    | Removing               // RemoveFront: acquiring the lock for the first test
    | Taking                 // RemoveFront: the list was not empty
    | Unlocking              // Wait: on waitQueue, releasing the lock
    | AboutToSleep           // Wait: the lock is released, P comes next
    | Sleeping               // Wait: in the queue of its own semaphore
    | Roused                 // Wait: made ready by V, about to test the value again
    | Returning              // Wait: P is done, re-acquiring the lock to test again
    | Leaving                // Append: signalled, releasing the lock for good
    | Delivering(item: Item) // RemoveFront: has its item, releasing the lock for good

  /** A call, by the item it puts in or brings back. */
  datatype Call = Call(caller: Tid, item: Item)

  /** `appended` and `removed` record what went onto the list and off it;
      `entered` the calls of Append in the order in which they got the lock, and
      `delivered` the calls of RemoveFront in the order in which they returned. */
  datatype State = State(
    lock: L.Lock, list: seq<Item>,
    waitQueue: seq<Tid>, waiter: map<Tid, Sem>,
    task: map<Tid, Task>,
    appended: seq<Item>, removed: seq<Item>,
    entered: seq<Call>, delivered: seq<Call>)

  datatype Event =
    | CallAppend(t: Tid, item: Item)
    | CallRemoveFront(t: Tid)
    | LockStep(step: L.Step)
    | ListAppend(t: Tid)
    | Signal(t: Tid)
    | PostWaiter(t: Tid)
    | TestEmpty(t: Tid)
    | ListRemove(t: Tid)
    | WaiterP(t: Tid)

  function Of(s: State, t: Tid): Task {
    if t in s.task then s.task[t] else Idle
  }

  predicate Acquiring(k: Task) {
    k.Appending? || k.Removing? || k.Returning?
  }

  predicate Releasing(k: Task) {
    k.Leaving? || k.Delivering? || k.Unlocking?
  }

  predicate Waiting(k: Task) {
    k.Unlocking? || k.AboutToSleep? || k.Sleeping? || k.Roused?
  }

  predicate Holds(s: State, t: Tid) {
    L.At(s.lock, t) == L.Held
  }

  predicate Enabled(s: State, e: Event) {
    match e
    case CallAppend(t, _) => Of(s, t).Idle?
    case CallRemoveFront(t) => Of(s, t).Idle?
    case LockStep(step) =>
      && L.Enabled(s.lock, step)
      && (if step.Try? || step.Record? then Acquiring(Of(s, step.t)) else Releasing(Of(s, step.t)))
    // the list itself asserts that the item is not on it yet
    case ListAppend(t) => Of(s, t).Appending? && Holds(s, t) && Of(s, t).item !in s.list
    case Signal(t) => Of(s, t).Signalling?
    case PostWaiter(t) => Of(s, t).Posting? && Of(s, t).waiter in s.waiter
    case TestEmpty(t) => (Of(s, t).Removing? || Of(s, t).Returning?) && Holds(s, t)
    case ListRemove(t) => Of(s, t).Taking? && s.list != []
    case WaiterP(t) => (Of(s, t).AboutToSleep? || Of(s, t).Roused?) && t in s.waiter
  }

  function Next(s: State, e: Event): State
    requires Enabled(s, e)
  {
    match e
    case CallAppend(t, item) => s.(task := s.task[t := Appending(item)])
    case CallRemoveFront(t) => s.(task := s.task[t := Removing])
    case LockStep(step) =>
      var s1 := s.(lock := L.Next(s.lock, step));
      match step {
        case Record(t) =>
          if Of(s, t).Appending? then s1.(entered := s.entered + [Call(t, Of(s, t).item)]) else s1
        case Give(t) =>
          s1.(task := s.task[t := if Of(s, t).Unlocking? then AboutToSleep else Idle],
              delivered := if Of(s, t).Delivering? then s.delivered + [Call(t, Of(s, t).item)] else s.delivered)
        case _ => s1
      }
    case ListAppend(t) =>
      s.(list := s.list + [Of(s, t).item], appended := s.appended + [Of(s, t).item],
         task := s.task[t := Signalling])
    case Signal(t) =>
      if s.waitQueue == [] then s.(task := s.task[t := Leaving])
      else s.(waitQueue := s.waitQueue[1..], task := s.task[t := Posting(s.waitQueue[0])])
    case PostWaiter(t) =>
      var w := Of(s, t).waiter;
      var task := s.task[t := Leaving];
      s.(waiter := s.waiter[w := Post(s.waiter[w])],
         task := if s.waiter[w].queue == [] then task else task[s.waiter[w].queue[0] := Roused])
    case TestEmpty(t) =>
      if s.list == [] then
        s.(waiter := s.waiter[t := Sem(0, [])], waitQueue := s.waitQueue + [t],
           task := s.task[t := Unlocking])
      else s.(task := s.task[t := Taking])
    case ListRemove(t) =>
      s.(list := s.list[1..], removed := s.removed + [s.list[0]],
         task := s.task[t := Delivering(s.list[0])])
    case WaiterP(t) =>
      s.(waiter := s.waiter[t := TryP(s.waiter[t], t)],
         task := s.task[t := if s.waiter[t].value == 0 then Sleeping else Returning])
  }

  const EMPTY_LIST: State := State(L.FREE_LOCK, [], [], map[], map[], [], [], [], [])

  // ---------- The invariant ----------

  /** What a thread does fits where it is with the lock. */
  predicate TaskFits(s: State, t: Tid) {
    var p := L.At(s.lock, t);
    match Of(s, t)
    case Signalling => p == L.Held
    case Posting(_) => p == L.Held
    case Taking => p == L.Held
    case Leaving => p == L.Held || p == L.Erased
    case Delivering(_) => p == L.Held || p == L.Erased
    case Unlocking => p == L.Held || p == L.Erased
    case Appending(_) => p != L.Erased
    case Removing => p != L.Erased
    case Returning => p != L.Erased
    case _ => p == L.Out
  }

  predicate Posted(s: State, t: Tid) {
    s.lock.holder.Some? && Of(s, s.lock.holder.value) == Posting(t)
  }

  /** A waiting thread is on the queue or about to be posted, with nothing in
      its semaphore; or it has been posted, and is not asleep. */
  predicate WaiterFits(s: State, t: Tid) {
    Waiting(Of(s, t)) ==>
      && t in s.waiter
      && s.waiter[t].queue == (if Of(s, t).Sleeping? then [t] else [])
      && s.waiter[t].value == (if t in s.waitQueue || Posted(s, t) then 0 else 1)
      && (Of(s, t).Sleeping? ==> s.waiter[t].value == 0)
      && (Of(s, t).Roused? ==> s.waiter[t].value == 1)
  }

  /** Consumers that were signalled and have not tested the list again. */
  ghost function Signalled(s: State): set<Tid> {
    set t | t in s.task && ((Waiting(s.task[t]) && t !in s.waitQueue) || s.task[t].Returning?)
  }

  /** An item just appended and not yet signalled for, or about to be taken. */
  function Underway(s: State): nat {
    if s.lock.holder.Some? && (Of(s, s.lock.holder.value).Signalling? || Of(s, s.lock.holder.value).Taking?)
    then 1 else 0
  }

  /** Everything the invariant says about one thread. */
  predicate ThreadFits(s: State, t: Tid) {
    && TaskFits(s, t)
    && WaiterFits(s, t)
    && (t in s.waitQueue ==> Waiting(Of(s, t)))
    && (Posted(s, t) ==> t !in s.waitQueue && (Of(s, t).AboutToSleep? || Of(s, t).Sleeping?))
    && (Of(s, t).Taking? ==> s.list != [])
  }

  ghost predicate Inv(s: State) {
    && L.Inv(s.lock)
    && (forall t :: ThreadFits(s, t))
    && Distinct(s.waitQueue)
    && s.removed + s.list == s.appended
    && (s.waitQueue != [] ==> |s.list| <= |Signalled(s)| + Underway(s))
  }

  // ---------- Every step keeps it ----------

  lemma CallKeeps(s: State, e: Event)
    requires Inv(s) && Enabled(s, e) && (e.CallAppend? || e.CallRemoveFront?)
    ensures Inv(Next(s, e))
  {
    var s' := Next(s, e);
    assert ThreadFits(s, e.t);
    forall u ensures ThreadFits(s', u) {
      assert ThreadFits(s, u);
    }
    assert Signalled(s') == Signalled(s);
  }

  lemma ListAppendKeeps(s: State, t: Tid)
    requires Inv(s) && Enabled(s, ListAppend(t))
    ensures Inv(Next(s, ListAppend(t)))
  {
    var s' := Next(s, ListAppend(t));
    assert s.lock.holder == Some(t);
    forall u ensures ThreadFits(s', u) {
      assert ThreadFits(s, u);
    }
    assert Signalled(s') == Signalled(s);
  }

  lemma ListRemoveKeeps(s: State, t: Tid)
    requires Inv(s) && Enabled(s, ListRemove(t))
    ensures Inv(Next(s, ListRemove(t)))
  {
    var s' := Next(s, ListRemove(t));
    assert ThreadFits(s, t);
    assert s.lock.holder == Some(t);
    forall u ensures ThreadFits(s', u) {
      assert ThreadFits(s, u);
    }
    assert Signalled(s') == Signalled(s);
    assert s.list == [s.list[0]] + s.list[1..];
  }

  lemma WaiterPKeeps(s: State, t: Tid)
    requires Inv(s) && Enabled(s, WaiterP(t))
    ensures Inv(Next(s, WaiterP(t)))
  {
    var s' := Next(s, WaiterP(t));
    assert ThreadFits(s, t);
    forall u ensures ThreadFits(s', u) {
      assert ThreadFits(s, u);
    }
    assert Signalled(s') == Signalled(s);
  }

  lemma TestEmptyFits(s: State, t: Tid, u: Tid)
    requires Inv(s) && Enabled(s, TestEmpty(t))
    ensures ThreadFits(Next(s, TestEmpty(t)), u)
  {
    assert ThreadFits(s, t) && ThreadFits(s, u);
    assert s.lock.holder == Some(t);
  }

  lemma TestEmptyKeeps(s: State, t: Tid)
    requires Inv(s) && Enabled(s, TestEmpty(t))
    ensures Inv(Next(s, TestEmpty(t)))
  {
    var s' := Next(s, TestEmpty(t));
    forall u ensures ThreadFits(s', u) { TestEmptyFits(s, t, u); }
    assert ThreadFits(s, t);
    assert s.lock.holder == Some(t);
    if s.list != [] {
      if Of(s, t).Returning? {
        assert Signalled(s) == Signalled(s') + {t} && t !in Signalled(s');
      } else {
        assert Signalled(s') == Signalled(s);
      }
    }
  }

  /** The thread that `Signal` takes off the queue has left its critical
      section: the lock is with the signaller. */
  lemma SignalFits(s: State, t: Tid, u: Tid)
    requires Inv(s) && Enabled(s, Signal(t)) && s.waitQueue != []
    ensures ThreadFits(Next(s, Signal(t)), u)
  {
    var w, rest := s.waitQueue[0], s.waitQueue[1..];
    assert ThreadFits(s, t) && ThreadFits(s, w) && ThreadFits(s, u);
    assert s.lock.holder == Some(t);
    assert u in s.waitQueue <==> u == w || u in rest by { assert s.waitQueue == [w] + rest; }
    assert w !in rest;
    if Of(s, w).Unlocking? { L.OneInside(s.lock, t, w); }
  }

  lemma SignalKeeps(s: State, t: Tid)
    requires Inv(s) && Enabled(s, Signal(t))
    ensures Inv(Next(s, Signal(t)))
  {
    var s' := Next(s, Signal(t));
    if s.waitQueue != [] {
      forall u ensures ThreadFits(s', u) { SignalFits(s, t, u); }
      SignalCounts(s, t);
    } else {
      assert ThreadFits(s, t);
      assert s.lock.holder == Some(t);
      forall u ensures ThreadFits(s', u) {
        assert ThreadFits(s, u);
      }
    }
  }

  lemma SignalCounts(s: State, t: Tid)
    requires Inv(s) && Enabled(s, Signal(t)) && s.waitQueue != []
    ensures var s' := Next(s, Signal(t)); |s'.list| <= |Signalled(s')|
  {
    var s' := Next(s, Signal(t));
    var w, rest := s.waitQueue[0], s.waitQueue[1..];
    assert ThreadFits(s, t) && ThreadFits(s, w);
    assert s.waitQueue == [w] + rest && w !in rest;
    assert w in s.task && w !in Signalled(s);
    forall u ensures u in Signalled(s') <==> u in Signalled(s) + {w} {
      assert ThreadFits(s, u);
      assert u in s.waitQueue <==> u == w || u in rest;
    }
    assert Signalled(s') == Signalled(s) + {w};
  }

  lemma PostWaiterKeeps(s: State, t: Tid)
    requires Inv(s) && Enabled(s, PostWaiter(t))
    ensures Inv(Next(s, PostWaiter(t)))
  {
    var s' := Next(s, PostWaiter(t));
    var w := Of(s, t).waiter;
    assert ThreadFits(s, t);
    assert s.lock.holder == Some(t);
    assert Posted(s, w) && ThreadFits(s, w);
    forall u ensures ThreadFits(s', u) {
      assert ThreadFits(s, u);
    }
    assert Signalled(s') == Signalled(s);
  }

  /** A thread that takes a step on the lock is not in the middle of a signal:
      who is about to be posted, and what is under way, stays the same. */
  lemma LockStepQuiet(s: State, step: L.Step, u: Tid)
    requires Inv(s) && Enabled(s, LockStep(step))
    ensures var s' := Next(s, LockStep(step));
            && (Posted(s', u) <==> Posted(s, u))
            && Underway(s') == Underway(s)
  {
    var h := s.lock.holder;
    assert ThreadFits(s, step.t);
    if h.Some? {
      assert L.At(s.lock, h.value) == L.Held;
      if !step.Try? { L.OneInside(s.lock, h.value, step.t); }
    }
  }

  lemma GiveFits(s: State, t: Tid, u: Tid)
    requires Inv(s) && Enabled(s, LockStep(L.Give(t)))
    ensures ThreadFits(Next(s, LockStep(L.Give(t))), u)
  {
    assert ThreadFits(s, t) && ThreadFits(s, u);
    LockStepQuiet(s, L.Give(t), u);
    if s.lock.sem.queue != [] {
      var w := s.lock.sem.queue[0];
      assert w in s.lock.sem.queue && L.At(s.lock, w) == L.Asleep;
      assert ThreadFits(s, w);
    }
  }

  lemma LockStepFits(s: State, step: L.Step, u: Tid)
    requires Inv(s) && Enabled(s, LockStep(step))
    ensures ThreadFits(Next(s, LockStep(step)), u)
  {
    if step.Give? {
      GiveFits(s, step.t, u);
    } else {
      assert ThreadFits(s, step.t) && ThreadFits(s, u);
      LockStepQuiet(s, step, u);
    }
  }

  lemma LockStepKeeps(s: State, step: L.Step)
    requires Inv(s) && Enabled(s, LockStep(step))
    ensures Inv(Next(s, LockStep(step)))
  {
    var s' := Next(s, LockStep(step));
    L.StepKeeps(s.lock, step);
    forall u ensures ThreadFits(s', u) { LockStepFits(s, step, u); }
    LockStepQuiet(s, step, step.t);
    assert Signalled(s') == Signalled(s);
  }

  lemma StepKeeps(s: State, e: Event)
    requires Inv(s) && Enabled(s, e)
    ensures Inv(Next(s, e))
  {
    match e
    case CallAppend(_, _) => CallKeeps(s, e);
    case CallRemoveFront(_) => CallKeeps(s, e);
    case LockStep(step) => LockStepKeeps(s, step);
    case ListAppend(t) => ListAppendKeeps(s, t);
    case Signal(t) => SignalKeeps(s, t);
    case PostWaiter(t) => PostWaiterKeeps(s, t);
    case TestEmpty(t) => TestEmptyKeeps(s, t);
    case ListRemove(t) => ListRemoveKeeps(s, t);
    case WaiterP(t) => WaiterPKeeps(s, t);
  }

  // ---------- The order of delivery ----------

  function ItemsOf(calls: seq<Call>): (items: seq<Item>)
    ensures |items| == |calls|
  {
    seq(|calls|, i requires 0 <= i < |calls| => calls[i].item)
  }

  /** The item of a producer that has the lock and has not put it on the list. */
  function Entering(s: State): seq<Item> {
    if s.lock.holder.Some? && Of(s, s.lock.holder.value).Appending? then [Of(s, s.lock.holder.value).item] else []
  }

  /** A consumer carries the next item to be delivered. */
  predicate Carries(s: State, t: Tid) {
    Of(s, t).Delivering? ==> s.removed == ItemsOf(s.delivered) + [Of(s, t).item]
  }

  /** Items go onto the list in the order in which their producers got the lock,
      and are delivered in the order in which they came off it. */
  ghost predicate Orderly(s: State) {
    && ItemsOf(s.entered) == s.appended + Entering(s)
    && (forall t :: Carries(s, t))
    && (s.removed == ItemsOf(s.delivered) || exists t :: Of(s, t).Delivering?)
  }

  lemma EnteringSame(s: State, s': State)
    requires s'.lock == s.lock
    requires s.lock.holder.Some? ==>
               var h := s.lock.holder.value;
               Of(s', h) == Of(s, h) || (!Of(s', h).Appending? && !Of(s, h).Appending?)
    ensures Entering(s') == Entering(s)
  {
  }

  lemma MoreItems(calls: seq<Call>, c: Call)
    ensures ItemsOf(calls + [c]) == ItemsOf(calls) + [c.item]
  {
  }

  /** Nobody starts or stops carrying an item. */
  lemma SameCarriers(s: State, s': State)
    requires forall t :: Carries(s, t)
    requires s.removed == ItemsOf(s.delivered) || exists t :: Of(s, t).Delivering?
    requires s'.removed == s.removed && s'.delivered == s.delivered
    requires forall t :: Of(s', t).Delivering? <==> Of(s, t).Delivering?
    requires forall t | Of(s, t).Delivering? :: Of(s', t) == Of(s, t)
    ensures forall t :: Carries(s', t)
    ensures s'.removed == ItemsOf(s'.delivered) || exists t :: Of(s', t).Delivering?
  {
    forall t ensures Carries(s', t) { assert Carries(s, t); }
    if s.removed != ItemsOf(s.delivered) {
      var t :| Of(s, t).Delivering?;
      assert Of(s', t).Delivering?;
    }
  }

  lemma ListAppendOrderly(s: State, t: Tid)
    requires Inv(s) && Orderly(s) && Enabled(s, ListAppend(t))
    ensures Orderly(Next(s, ListAppend(t)))
  {
    assert s.lock.holder == Some(t);
    SameCarriers(s, Next(s, ListAppend(t)));
  }

  /** Whoever takes an item off the list is alone inside, so the item before it
      has been delivered. */
  lemma ListRemoveOrderly(s: State, t: Tid)
    requires Inv(s) && Orderly(s) && Enabled(s, ListRemove(t))
    ensures Orderly(Next(s, ListRemove(t)))
  {
    var s' := Next(s, ListRemove(t));
    assert ThreadFits(s, t);
    assert s.lock.holder == Some(t);
    forall u ensures !Of(s, u).Delivering? {
      assert ThreadFits(s, u);
      if u != t && Of(s, u).Delivering? { L.OneInside(s.lock, t, u); }
    }
    assert s.removed == ItemsOf(s.delivered);
    forall u ensures Carries(s', u) { assert !Of(s, u).Delivering?; }
    assert Of(s', t).Delivering?;
  }

  lemma RecordOrderly(s: State, t: Tid)
    requires Inv(s) && Orderly(s) && Enabled(s, LockStep(L.Record(t)))
    ensures Orderly(Next(s, LockStep(L.Record(t))))
  {
    var s' := Next(s, LockStep(L.Record(t)));
    if s.lock.holder.Some? {
      assert L.At(s.lock, s.lock.holder.value) == L.Held;
      L.OneInside(s.lock, s.lock.holder.value, t);
    }
    assert Entering(s) == [];
    if Of(s, t).Appending? { MoreItems(s.entered, Call(t, Of(s, t).item)); }
    SameCarriers(s, s');
  }

  lemma GiveOrderly(s: State, t: Tid)
    requires Inv(s) && Orderly(s) && Enabled(s, LockStep(L.Give(t)))
    ensures Orderly(Next(s, LockStep(L.Give(t))))
  {
    var s' := Next(s, LockStep(L.Give(t)));
    assert ThreadFits(s, t) && Carries(s, t);
    if s.lock.holder.Some? {
      assert L.At(s.lock, s.lock.holder.value) == L.Held;
      L.OneInside(s.lock, s.lock.holder.value, t);
    }
    if Of(s, t).Delivering? {
      MoreItems(s.delivered, Call(t, Of(s, t).item));
      forall u ensures Carries(s', u) {
        assert ThreadFits(s, u);
        if u != t && Of(s, u).Delivering? { L.OneInside(s.lock, t, u); }
      }
    } else {
      SameCarriers(s, s');
    }
  }

  lemma LockStepOrderly(s: State, step: L.Step)
    requires Inv(s) && Orderly(s) && Enabled(s, LockStep(step))
    ensures Orderly(Next(s, LockStep(step)))
  {
    match step
    case Record(t) => RecordOrderly(s, t);
    case Give(t) => GiveOrderly(s, t);
    case _ =>
      assert ThreadFits(s, step.t);
      SameCarriers(s, Next(s, LockStep(step)));
  }

  lemma PostWaiterOrderly(s: State, t: Tid)
    requires Inv(s) && Orderly(s) && Enabled(s, PostWaiter(t))
    ensures Orderly(Next(s, PostWaiter(t)))
  {
    var s', w := Next(s, PostWaiter(t)), Of(s, t).waiter;
    assert ThreadFits(s, t);
    assert s.lock.holder == Some(t);
    assert Posted(s, w) && ThreadFits(s, w);
    EnteringSame(s, s');
    SameCarriers(s, s');
  }

  /** The other steps change what one thread does, and neither side of the change
      is a delivery or an append with the lock. */
  lemma OtherOrderly(s: State, e: Event)
    requires Inv(s) && Orderly(s) && Enabled(s, e)
    requires e.CallAppend? || e.CallRemoveFront? || e.Signal? || e.TestEmpty? || e.WaiterP?
    ensures Orderly(Next(s, e))
  {
    var s' := Next(s, e);
    assert ThreadFits(s, e.t);
    QuietOrderly(s, s', e.t, s'.task[e.t]);
  }

  lemma QuietOrderly(s: State, s': State, t: Tid, k: Task)
    requires Orderly(s) && s'.lock == s.lock && s'.task == s.task[t := k]
    requires s'.appended == s.appended && s'.removed == s.removed
    requires s'.entered == s.entered && s'.delivered == s.delivered
    requires !k.Delivering? && !Of(s, t).Delivering?
    requires s.lock.holder == Some(t) ==> !k.Appending? && !Of(s, t).Appending?
    ensures Orderly(s')
  {
    EnteringSame(s, s');
    SameCarriers(s, s');
  }

  lemma StepStaysOrderly(s: State, e: Event)
    requires Inv(s) && Orderly(s) && Enabled(s, e)
    ensures Orderly(Next(s, e))
  {
    match e
    case LockStep(step) => LockStepOrderly(s, step);
    case ListAppend(t) => ListAppendOrderly(s, t);
    case ListRemove(t) => ListRemoveOrderly(s, t);
    case PostWaiter(t) => PostWaiterOrderly(s, t);
    case _ => OtherOrderly(s, e);
  }

  // ---------- Every run ----------

  predicate Feasible(s: State, es: seq<Event>)
    decreases |es|
  {
    es != [] ==> Enabled(s, es[0]) && Feasible(Next(s, es[0]), es[1..])
  }

  function After(s: State, es: seq<Event>): State
    requires Feasible(s, es)
    decreases |es|
  {
    if es == [] then s else After(Next(s, es[0]), es[1..])
  }

  lemma {:induction false} RunKeeps(s: State, es: seq<Event>)
    requires Inv(s) && Feasible(s, es)
    ensures Inv(After(s, es))
    decreases |es|
  {
    if es != [] {
      StepKeeps(s, es[0]);
      RunKeeps(Next(s, es[0]), es[1..]);
    }
  }

  lemma ReachableInv(es: seq<Event>)
    requires Feasible(EMPTY_LIST, es)
    ensures Inv(After(EMPTY_LIST, es))
  {
    L.FreeLockInv();
    forall t ensures ThreadFits(EMPTY_LIST, t) {}
    RunKeeps(EMPTY_LIST, es);
  }

  lemma {:induction false} RunStaysOrderly(s: State, es: seq<Event>)
    requires Inv(s) && Orderly(s) && Feasible(s, es)
    ensures Orderly(After(s, es))
    decreases |es|
  {
    if es != [] {
      StepKeeps(s, es[0]);
      StepStaysOrderly(s, es[0]);
      RunStaysOrderly(Next(s, es[0]), es[1..]);
    }
  }

  /** Under every interleaving the items come out in the order they went in, each
      exactly once: the k-th call of RemoveFront to return brings back the item of
      the k-th call of Append to get the lock.  What is not delivered yet is with
      a consumer that is leaving, on the list, or with the producer that has the
      lock, in that order. */
  lemma FifoExactlyOnce(es: seq<Event>)
    requires Feasible(EMPTY_LIST, es)
    ensures var s := After(EMPTY_LIST, es);
            && |s.delivered| <= |s.entered|
            && (forall k | 0 <= k < |s.delivered| :: s.delivered[k].item == s.entered[k].item)
            && ItemsOf(s.entered) == ItemsOf(s.delivered) + Carried(s) + s.list + Entering(s)
            && |Carried(s)| <= 1
            && (Carried(s) == [] <==> forall t :: !Of(s, t).Delivering?)
            && (forall t | Of(s, t).Delivering? :: Carried(s) == [Of(s, t).item])
  {
    ReachableInv(es);
    forall t ensures Carries(EMPTY_LIST, t) {}
    RunStaysOrderly(EMPTY_LIST, es);
    OrderlyDelivers(After(EMPTY_LIST, es));
  }

  /** The item off the list that has not been delivered, if there is one. */
  function Carried(s: State): seq<Item> {
    if |s.delivered| <= |s.removed| then s.removed[|s.delivered|..] else []
  }

  lemma OrderlyDelivers(s: State)
    requires Inv(s) && Orderly(s)
    ensures |s.delivered| <= |s.entered|
    ensures forall k | 0 <= k < |s.delivered| :: s.delivered[k].item == s.entered[k].item
    ensures ItemsOf(s.entered) == ItemsOf(s.delivered) + Carried(s) + s.list + Entering(s)
    ensures |Carried(s)| <= 1 && (Carried(s) == [] <==> forall t :: !Of(s, t).Delivering?)
    ensures forall t | Of(s, t).Delivering? :: Carried(s) == [Of(s, t).item]
  {
    forall t | Of(s, t).Delivering? ensures Carried(s) == [Of(s, t).item] { assert Carries(s, t); }
    assert s.removed == ItemsOf(s.delivered) + Carried(s) by {
      if s.removed != ItemsOf(s.delivered) {
        var t :| Of(s, t).Delivering?;
        assert Carries(s, t);
      }
    }
    forall k | 0 <= k < |s.delivered| ensures s.delivered[k].item == s.entered[k].item {
      assert ItemsOf(s.delivered)[k] == s.removed[k] == s.appended[k] == ItemsOf(s.entered)[k];
    }
  }

  /** No signal is lost between Release and P in `Wait`: while the lock is free
      and consumers wait to be signalled, every item on the list has a consumer
      of its own that was signalled and has yet to test the list again, and no
      such consumer is asleep. */
  lemma NoLostSignal(es: seq<Event>)
    requires Feasible(EMPTY_LIST, es)
    ensures var s := After(EMPTY_LIST, es);
            && (L.Insiders(s.lock) == {} && s.waitQueue != [] ==> |s.list| <= |Signalled(s)|)
            && (forall t | t in Signalled(s) && L.Insiders(s.lock) == {} :: !Of(s, t).Sleeping?)
  {
    ReachableInv(es);
    var s := After(EMPTY_LIST, es);
    if s.lock.holder.Some? {
      assert L.At(s.lock, s.lock.holder.value) == L.Held;
      assert s.lock.holder.value in L.Insiders(s.lock);
    }
    if L.Insiders(s.lock) == {} {
      forall t | t in Signalled(s) ensures !Of(s, t).Sleeping? {
        assert ThreadFits(s, t);
      }
    }
  }

  /** The consumer that a step puts on the queue of the condition, if any. */
  function StartsWaiting(s: State, e: Event): seq<Tid>
    requires Enabled(s, e)
  {
    if e.TestEmpty? && Of(Next(s, e), e.t).Unlocking? then [e.t] else []
  }

  /** The consumer for which a Signal is, if any. */
  function GetsSignal(s: State, e: Event): seq<Tid>
    requires Enabled(s, e)
  {
    if e.Signal? && Of(Next(s, e), e.t).Posting? then [Of(Next(s, e), e.t).waiter] else []
  }

  function WaitedIn(s: State, es: seq<Event>): seq<Tid>
    requires Feasible(s, es)
    decreases |es|
  {
    if es == [] then [] else StartsWaiting(s, es[0]) + WaitedIn(Next(s, es[0]), es[1..])
  }

  function SignalledIn(s: State, es: seq<Event>): seq<Tid>
    requires Feasible(s, es)
    decreases |es|
  {
    if es == [] then [] else GetsSignal(s, es[0]) + SignalledIn(Next(s, es[0]), es[1..])
  }

  lemma StepSignals(s: State, e: Event)
    requires Enabled(s, e)
    ensures GetsSignal(s, e) + Next(s, e).waitQueue == s.waitQueue + StartsWaiting(s, e)
  {
  }

  /** Consumers are signalled in the order in which they began to wait. */
  lemma {:induction false} FirstWaitingFirstSignalled(s: State, es: seq<Event>)
    requires Feasible(s, es)
    ensures SignalledIn(s, es) + After(s, es).waitQueue == s.waitQueue + WaitedIn(s, es)
    decreases |es|
  {
    if es != [] {
      var s' := Next(s, es[0]);
      StepSignals(s, es[0]);
      FirstWaitingFirstSignalled(s', es[1..]);
      Chained(GetsSignal(s, es[0]), s'.waitQueue, s.waitQueue, StartsWaiting(s, es[0]),
              SignalledIn(s', es[1..]), After(s, es).waitQueue, WaitedIn(s', es[1..]));
    }
  }

  /** A consumer sleeps only while it waits for its signal or for the post that
      the signaller is about to make. */
  lemma SleeperIsAwaited(es: seq<Event>, t: Tid)
    requires Feasible(EMPTY_LIST, es) && Of(After(EMPTY_LIST, es), t).Sleeping?
    ensures var s := After(EMPTY_LIST, es);
            t in s.waiter && s.waiter[t] == Sem(0, [t]) && (t in s.waitQueue || Posted(s, t))
  {
    ReachableInv(es);
    assert ThreadFits(After(EMPTY_LIST, es), t);
  }

  /** What the code asserts and takes for granted: the lock is held by the
      caller of `Wait` and `Signal`, the thread taken off the queue has a
      semaphore, nobody is on the queue twice, and the list a consumer found
      non-empty is non-empty when it takes the item. */
  lemma AssertionsHold(es: seq<Event>, t: Tid)
    requires Feasible(EMPTY_LIST, es)
    ensures var s := After(EMPTY_LIST, es);
            && (Of(s, t).Signalling? || Of(s, t).Posting? || Of(s, t).Taking? ==> s.lock.holder == Some(t))
            && (Of(s, t).Posting? ==> Of(s, t).waiter in s.waiter)
            && (Of(s, t).AboutToSleep? || Of(s, t).Roused? ==> t in s.waiter)
            && (Of(s, t).Taking? ==> s.list != [])
            && ((Of(s, t).Removing? || Of(s, t).Returning?) && Holds(s, t)
                ==> s.lock.holder == Some(t) && t !in s.waitQueue)
  {
    ReachableInv(es);
    var s := After(EMPTY_LIST, es);
    assert ThreadFits(s, t);
    if Of(s, t).Posting? {
      var w := Of(s, t).waiter;
      assert Posted(s, w) && ThreadFits(s, w);
    }
  }

  // ---------- No deadlock ----------

  /** Some call that has begun can go on. */
  ghost predicate CanMove(s: State) {
    exists e: Event :: Enabled(s, e) && !e.CallAppend? && !e.CallRemoveFront?
  }

  /** The list's own assertion stops a producer whose item is on it already. */
  predicate Refused(s: State, t: Tid) {
    Of(s, t).Appending? && Holds(s, t) && Of(s, t).item in s.list
  }

  /** A consumer that waits to be signalled. */
  predicate AwaitsItem(s: State, t: Tid) {
    Of(s, t).Sleeping? && t in s.waitQueue
  }

  /** A thread inside the lock can go on, unless the list refuses its item. */
  lemma InsiderMoves(s: State, t: Tid)
    requires Inv(s) && L.Inside(L.At(s.lock, t)) && !Refused(s, t)
    ensures CanMove(s)
  {
    assert ThreadFits(s, t);
    var p := L.At(s.lock, t);
    if p == L.Got {
      assert Enabled(s, LockStep(L.Record(t)));
    } else if p == L.Erased {
      assert Enabled(s, LockStep(L.Give(t)));
    } else if Of(s, t).Posting? {
      assert Posted(s, Of(s, t).waiter) && ThreadFits(s, Of(s, t).waiter);
      assert Enabled(s, PostWaiter(t));
    } else {
      var e := if Of(s, t).Appending? then ListAppend(t)
               else if Of(s, t).Signalling? then Signal(t)
               else if Of(s, t).Taking? then ListRemove(t)
               else if Acquiring(Of(s, t)) then TestEmpty(t)
               else LockStep(L.Erase(t));
      assert Enabled(s, e);
    }
  }

  /** A thread that wants the lock can go on, or one that keeps it out can. */
  lemma AcquirerMoves(s: State, t: Tid)
    requires Inv(s) && Acquiring(Of(s, t)) && forall u :: !Refused(s, u)
    ensures CanMove(s)
  {
    assert ThreadFits(s, t);
    var p := L.At(s.lock, t);
    if p == L.Out || p == L.Woken {
      assert Enabled(s, LockStep(L.Try(t)));
    } else if p == L.Asleep {
      var u := L.SleeperHasCause(s.lock, t);
      assert ThreadFits(s, u);
      if L.At(s.lock, u) == L.Woken {
        assert Enabled(s, LockStep(L.Try(u)));
      } else {
        InsiderMoves(s, u);
      }
    } else {
      InsiderMoves(s, t);
    }
  }

  lemma BusyMoves(s: State, t: Tid)
    requires Inv(s) && !Of(s, t).Idle? && !AwaitsItem(s, t) && forall u :: !Refused(s, u)
    ensures CanMove(s)
  {
    assert ThreadFits(s, t);
    if Acquiring(Of(s, t)) {
      AcquirerMoves(s, t);
    } else if Of(s, t).AboutToSleep? || Of(s, t).Roused? {
      assert Enabled(s, WaiterP(t));
    } else if Of(s, t).Sleeping? {
      var h := s.lock.holder.value;
      assert Posted(s, t);
      assert L.At(s.lock, h) == L.Held;
      InsiderMoves(s, h);
    } else {
      InsiderMoves(s, t);
    }
  }

  /** If every call that has begun waits to be signalled, there is nothing on the
      list that it could be signalled for. */
  lemma AllWaitingMeansEmpty(s: State, t: Tid)
    requires Inv(s) && AwaitsItem(s, t)
    requires forall u :: Of(s, u).Idle? || AwaitsItem(s, u)
    ensures s.list == []
  {
    forall u ensures u !in Signalled(s) { assert Of(s, u).Idle? || AwaitsItem(s, u); }
    assert Signalled(s) == {};
    if s.lock.holder.Some? {
      var h := s.lock.holder.value;
      assert Of(s, h).Idle? || AwaitsItem(s, h);
    }
  }

  /** In every reachable state in which a call has begun and not returned, some
      call can go on, unless they all wait to be signalled and the list is empty,
      or a producer has brought an item that is on the list. */
  lemma NoDeadlock(es: seq<Event>, t: Tid)
    requires Feasible(EMPTY_LIST, es) && !Of(After(EMPTY_LIST, es), t).Idle?
    ensures var s := After(EMPTY_LIST, es);
            || CanMove(s)
            || (s.list == [] && forall u :: Of(s, u).Idle? || AwaitsItem(s, u))
            || exists u :: Refused(s, u)
  {
    ReachableInv(es);
    var s := After(EMPTY_LIST, es);
    if forall u :: !Refused(s, u) {
      if u :| !(Of(s, u).Idle? || AwaitsItem(s, u)) {
        BusyMoves(s, u);
      } else {
        AllWaitingMeansEmpty(s, t);
      }
    }
  }

  // ---------- Every call returns, or waits for an item ----------

  /** How many steps are left to a thread, counting one more for each thread that
      its release of the lock may wake.  A consumer that has been signalled has
      ten more to go than one that waits for its signal, and the producer that
      signals it has those to give. */
  function StepsLeft(k: Task, p: L.Pc, queued: bool): nat {
    var again := if queued then 0 else 10;
    var entry := if p == L.Out || p == L.Woken then 3 else if p == L.Asleep then 2 else if p == L.Got then 1 else 0;
    match k
    case Idle => 0
    case Appending(_) => 16 + entry
    case Signalling => 15
    case Posting(_) => 4
    case Removing => 5 + entry
    case Returning => 5 + entry
    case Taking => 4
    case Unlocking => again + if p == L.Held then 4 else 3
    case AboutToSleep => again + 1
    case Sleeping => again
    case Roused => 9
    case Leaving => if p == L.Held then 3 else 2
    case Delivering(_) => if p == L.Held then 3 else 2
  }

  function LeftOf(s: State, t: Tid): nat {
    StepsLeft(Of(s, t), L.At(s.lock, t), t in s.waitQueue)
  }

  ghost function AllStepsLeft(s: State): map<Tid, nat> {
    map t | t in s.task :: LeftOf(s, t)
  }

  ghost function Measure(s: State): nat {
    Sum(AllStepsLeft(s))
  }

  /** A step that concerns one thread. */
  lemma OneChanged(s: State, s': State, t: Tid)
    requires t in s'.task && s'.task == s.task[t := s'.task[t]]
    requires forall u | u in s.task && u != t :: LeftOf(s', u) == LeftOf(s, u)
    ensures Measure(s') == Measure(s) - LeftOf(s, t) + LeftOf(s', t)
  {
    assert t !in s.task ==> LeftOf(s, t) == 0;
    assert AllStepsLeft(s') == AllStepsLeft(s)[t := LeftOf(s', t)];
    SumUpdated(AllStepsLeft(s), t, LeftOf(s', t));
  }

  /** A thread that is woken tries for the lock once more. */
  lemma WakeCosts(s: State, s': State, w: Tid)
    requires w in s.task && Acquiring(Of(s, w)) && L.At(s.lock, w) == L.Asleep
    requires s' == s.(lock := s.lock.(pc := s.lock.pc[w := L.Woken]))
    ensures Measure(s') == Measure(s) + 1
  {
    OneChanged(s, s', w);
  }

  lemma ReleaseSaves(s: State, s': State, t: Tid)
    requires Releasing(Of(s, t)) && L.At(s.lock, t) == L.Erased && s'.waitQueue == s.waitQueue
    requires s'.task == s.task[t := if Of(s, t).Unlocking? then AboutToSleep else Idle]
    requires s'.lock.pc == s.lock.pc[t := L.Out]
    ensures Measure(s') + 2 <= Measure(s)
  {
    OneChanged(s, s', t);
  }

  lemma GiveDecreases(s: State, t: Tid)
    requires Inv(s) && Enabled(s, LockStep(L.Give(t)))
    ensures Measure(Next(s, LockStep(L.Give(t)))) < Measure(s)
  {
    var s' := Next(s, LockStep(L.Give(t)));
    if s.lock.sem.queue == [] {
      ReleaseSaves(s, s', t);
    } else {
      var w := s.lock.sem.queue[0];
      assert w in s.lock.sem.queue && L.At(s.lock, w) == L.Asleep && ThreadFits(s, w);
      var mid := s'.(lock := s'.lock.(pc := s.lock.pc[t := L.Out]));
      ReleaseSaves(s, mid, t);
      WakeCosts(mid, s', w);
    }
  }

  /** A step towards the lock, or the first of the two that release it. */
  lemma PcChanged(s: State, s': State, t: Tid, p: L.Pc)
    requires t in s.task && s'.task == s.task && s'.waitQueue == s.waitQueue && s'.lock.pc == s.lock.pc[t := p]
    ensures Measure(s') == Measure(s) - LeftOf(s, t) + StepsLeft(Of(s, t), p, t in s.waitQueue)
  {
    OneChanged(s, s', t);
  }

  lemma ApproachDecreases(s: State, step: L.Step)
    requires Enabled(s, LockStep(step)) && !step.Give?
    ensures Measure(Next(s, LockStep(step))) < Measure(s)
  {
    var s', t := Next(s, LockStep(step)), step.t;
    PcChanged(s, s', t, s'.lock.pc[t]);
  }

  lemma LockStepDecreases(s: State, step: L.Step)
    requires Inv(s) && Enabled(s, LockStep(step))
    ensures Measure(Next(s, LockStep(step))) < Measure(s)
  {
    if step.Give? {
      GiveDecreases(s, step.t);
    } else {
      ApproachDecreases(s, step);
    }
  }

  /** Taken off the queue, a consumer has ten more steps to go. */
  lemma UnqueueCosts(s: State, s': State, w: Tid)
    requires s.waitQueue != [] && s.waitQueue[0] == w && Distinct(s.waitQueue)
    requires s' == s.(waitQueue := s.waitQueue[1..])
    requires Of(s, w).Unlocking? || Of(s, w).AboutToSleep? || Of(s, w).Sleeping?
    ensures Measure(s') == Measure(s) + 10
  {
    assert s.waitQueue == [w] + s'.waitQueue && w !in s'.waitQueue;
    forall u | u in s.task && u != w ensures LeftOf(s', u) == LeftOf(s, u) {
      assert u in s.waitQueue <==> u in s'.waitQueue;
    }
    OneChanged(s, s', w);
  }

  lemma SignalSaves(s: State, s': State, t: Tid, w: Tid)
    requires Of(s, t).Signalling? && s.waitQueue != [] && s.waitQueue[0] == w && w != t && Distinct(s.waitQueue)
    requires Of(s, w).Unlocking? || Of(s, w).AboutToSleep? || Of(s, w).Sleeping?
    requires s' == s.(waitQueue := s.waitQueue[1..], task := s.task[t := Posting(w)])
    ensures Measure(s') < Measure(s)
  {
    var mid := s.(task := s.task[t := Posting(w)]);
    TaskChanged(s, mid, t, Posting(w));
    UnqueueCosts(mid, s', w);
  }

  /** The signal sends one consumer through the test of the list once more. */
  lemma SignalDecreases(s: State, t: Tid)
    requires Inv(s) && Enabled(s, Signal(t))
    ensures Measure(Next(s, Signal(t))) < Measure(s)
  {
    var s' := Next(s, Signal(t));
    if s.waitQueue == [] {
      TaskChanged(s, s', t, Leaving);
    } else {
      var w := s.waitQueue[0];
      assert w in s.waitQueue && ThreadFits(s, w);
      SignalSaves(s, s', t, w);
    }
  }

  lemma TaskChanged(s: State, s': State, t: Tid, k: Task)
    requires s'.lock == s.lock && s'.waitQueue == s.waitQueue && s'.task == s.task[t := k]
    ensures Measure(s') == Measure(s) - LeftOf(s, t) + StepsLeft(k, L.At(s.lock, t), t in s.waitQueue)
  {
    OneChanged(s, s', t);
  }

  /** The consumer that a producer posts has been taken off the queue. */
  lemma PostedWaiter(s: State, t: Tid, w: Tid)
    requires Inv(s) && Of(s, t) == Posting(w)
    ensures w != t && w !in s.waitQueue && (Of(s, w).AboutToSleep? || Of(s, w).Sleeping?)
    ensures w in s.waiter && s.waiter[w].queue == if Of(s, w).Sleeping? then [w] else []
  {
    assert ThreadFits(s, t);
    assert s.lock.holder == Some(t);
    assert Posted(s, w) && ThreadFits(s, w);
  }

  lemma PostSaves(s: State, s': State, t: Tid, w: Tid)
    requires Of(s, t) == Posting(w) && w != t && w !in s.waitQueue
    requires s'.lock == s.lock && s'.waitQueue == s.waitQueue
    requires s'.task == if Of(s, w).Sleeping? then s.task[t := Leaving][w := Roused] else s.task[t := Leaving]
    ensures Measure(s') < Measure(s)
  {
    var mid := s'.(task := s.task[t := Leaving]);
    TaskChanged(s, mid, t, Leaving);
    if Of(s, w).Sleeping? { TaskChanged(mid, s', w, Roused); }
  }

  lemma PostWaiterDecreases(s: State, t: Tid)
    requires Inv(s) && Enabled(s, PostWaiter(t))
    ensures Measure(Next(s, PostWaiter(t))) < Measure(s)
  {
    var w := Of(s, t).waiter;
    PostedWaiter(s, t, w);
    PostSaves(s, Next(s, PostWaiter(t)), t, w);
  }

  lemma TestEmptyDecreases(s: State, t: Tid)
    requires Inv(s) && Enabled(s, TestEmpty(t))
    ensures Measure(Next(s, TestEmpty(t))) < Measure(s)
  {
    OneChanged(s, Next(s, TestEmpty(t)), t);
  }

  lemma WaiterPDecreases(s: State, t: Tid)
    requires Inv(s) && Enabled(s, WaiterP(t))
    ensures Measure(Next(s, WaiterP(t))) < Measure(s)
  {
    var s' := Next(s, WaiterP(t));
    assert ThreadFits(s, t);
    TaskChanged(s, s', t, s'.task[t]);
  }

  lemma CallCosts(s: State, e: Event)
    requires Inv(s) && Enabled(s, e) && (e.CallAppend? || e.CallRemoveFront?)
    ensures Measure(Next(s, e)) + 1 == Measure(s) + Cost(e)
  {
    var s' := Next(s, e);
    assert ThreadFits(s, e.t);
    TaskChanged(s, s', e.t, s'.task[e.t]);
  }

  lemma ListStepDecreases(s: State, e: Event)
    requires Inv(s) && Enabled(s, e) && (e.ListAppend? || e.ListRemove?)
    ensures Measure(Next(s, e)) < Measure(s)
  {
    var s' := Next(s, e);
    assert ThreadFits(s, e.t);
    TaskChanged(s, s', e.t, s'.task[e.t]);
  }

  /** Every step but the beginning of a call brings the measure down. */
  lemma StepDecreases(s: State, e: Event)
    requires Inv(s) && Enabled(s, e)
    ensures Measure(Next(s, e)) + 1 <= Measure(s) + Cost(e)
  {
    match e
    case CallAppend(_, _) => CallCosts(s, e);
    case CallRemoveFront(_) => CallCosts(s, e);
    case LockStep(step) => LockStepDecreases(s, step);
    case ListAppend(_) => ListStepDecreases(s, e);
    case Signal(t) => SignalDecreases(s, t);
    case PostWaiter(t) => PostWaiterDecreases(s, t);
    case TestEmpty(t) => TestEmptyDecreases(s, t);
    case ListRemove(_) => ListStepDecreases(s, e);
    case WaiterP(t) => WaiterPDecreases(s, t);
  }

  /** What the beginning of a call allows the run in steps. */
  function Cost(e: Event): nat {
    if e.CallAppend? then 20 else if e.CallRemoveFront? then 9 else 0
  }

  function Budget(es: seq<Event>): nat {
    if es == [] then 0 else Cost(es[0]) + Budget(es[1..])
  }

  lemma {:induction false} RunDecreases(s: State, es: seq<Event>)
    requires Inv(s) && Feasible(s, es)
    ensures |es| + Measure(After(s, es)) <= Measure(s) + Budget(es)
    decreases |es|
  {
    if es != [] {
      StepKeeps(s, es[0]);
      StepDecreases(s, es[0]);
      RunDecreases(Next(s, es[0]), es[1..]);
    }
  }

  /** No run takes more than twenty steps for a call of Append and nine for a call
      of RemoveFront, under any scheduling.  When no step is left, every call has
      returned, but for consumers that wait while the list is empty, or the list
      has refused an item. */
  lemma EveryCallReturns(es: seq<Event>)
    requires Feasible(EMPTY_LIST, es)
    ensures |es| <= Budget(es)
    ensures var s := After(EMPTY_LIST, es);
            !CanMove(s) && (forall u :: !Refused(s, u)) ==>
              && (forall t :: Of(s, t).Idle? || AwaitsItem(s, t))
              && ((exists t :: !Of(s, t).Idle?) ==> s.list == [])
  {
    ReachableInv([]);
    RunDecreases(EMPTY_LIST, es);
    assert AllStepsLeft(EMPTY_LIST) == map[];
    var s := After(EMPTY_LIST, es);
    if !CanMove(s) && forall u :: !Refused(s, u) {
      forall t ensures (Of(s, t).Idle? || AwaitsItem(s, t)) && (!Of(s, t).Idle? ==> s.list == []) {
        if !Of(s, t).Idle? { NoDeadlock(es, t); }
      }
    }
  }
}
