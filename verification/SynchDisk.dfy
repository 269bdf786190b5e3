/** The synchronous disk (filesys/synchdisk.cc) over the raw disk
    (machine/disk.cc), shared by any number of threads: a lock lets one request
    through at a time, and a semaphore waits for the request's interrupt. */
module SynchDisks {
  import opened Semaphores
  import opened Wrappers
  import opened SectorDisk
  import opened Sums
  import L = Locks

  datatype Request = Read(sector: SectorNumber) | Write(sector: SectorNumber, data: Sector)

  /** A call, by who makes it and what it asks for. */
  datatype Job = Job(caller: Tid, request: Request)

  /** What a call brings back: the number of its request, and its buffer. */
  datatype Reply = Reply(caller: Tid, n: nat, buffer: Sector)

  datatype Task =
    | Idle
    | Wanting(request: Request)  // acquiring the lock, then the raw request
    // request n is with the disk, P comes next; for a read, the disk has filled
    // the buffer
    | Issued(n: nat, buffer: Sector)
    | Sleeping(n: nat, buffer: Sector)
    | Roused(n: nat, buffer: Sector)   // made ready by V, about to test the value again
    | Leaving(n: nat, buffer: Sector)  // P is done, releasing the lock

  /** `active` and `interrupts` are the raw disk's flag and the disk interrupts
      that are scheduled.  The calls are recorded in the order in which they got
      the lock (`granted`), in which the raw disk took their requests (`log`, with
      what it put into each buffer in `buffers`), and in which they returned;
      `completed` counts the interrupts handled. */
  datatype State = State(
    lock: L.Lock, sem: Sem, active: bool, interrupts: nat, disk: DiskImage,
    task: map<Tid, Task>, granted: seq<Job>, log: seq<Job>, buffers: seq<Sector>,
    completed: nat, returned: seq<Reply>)

  datatype Event =
    | Call(t: Tid, request: Request)
    | LockStep(step: L.Step)
    | Submit(t: Tid)     // ReadRequest or WriteRequest
    | WaitP(t: Tid)      // one turn of the loop in P
    | Interrupt          // the disk interrupt: CallBack, which calls V

  function Of(s: State, t: Tid): Task {
    if t in s.task then s.task[t] else Idle
  }

  function Rouse(k: Task): Task {
    match k
    case Sleeping(n, buffer) => Roused(n, buffer)
    case _ => k
  }

  predicate Enabled(s: State, e: Event) {
    match e
    case Call(t, _) => Of(s, t).Idle?
    case LockStep(step) =>
      && L.Enabled(s.lock, step)
      && (if step.Try? || step.Record? then Of(s, step.t).Wanting? else Of(s, step.t).Leaving?)
    case Submit(t) => Of(s, t).Wanting? && L.At(s.lock, t) == L.Held
    case WaitP(t) => Of(s, t).Issued? || Of(s, t).Roused?
    case Interrupt => s.interrupts > 0
  }

  function Next(s: State, e: Event): State
    requires Enabled(s, e)
  {
    match e
    case Call(t, request) => s.(task := s.task[t := Wanting(request)])
    case LockStep(step) =>
      var s1 := s.(lock := L.Next(s.lock, step));
      match step {
        case Record(t) => s1.(granted := s.granted + [Job(t, Of(s, t).request)])
        case Give(t) =>
          s1.(task := s.task[t := Idle],
              returned := s.returned + [Reply(t, Of(s, t).n, Of(s, t).buffer)])
        case _ => s1
      }
    case Submit(t) =>
      var r := Of(s, t).request;
      var data := if r.Read? then s.disk[r.sector] else r.data;
      s.(active := true, interrupts := s.interrupts + 1,
         disk := if r.Read? then s.disk else s.disk[r.sector := data],
         log := s.log + [Job(t, r)], buffers := s.buffers + [data],
         task := s.task[t := Issued(|s.log|, data)])
    case WaitP(t) =>
      var n, buffer := Of(s, t).n, Of(s, t).buffer;
      s.(sem := TryP(s.sem, t),
         task := s.task[t := if s.sem.value == 0 then Sleeping(n, buffer) else Leaving(n, buffer)])
    case Interrupt =>
      s.(active := false, interrupts := s.interrupts - 1, sem := Post(s.sem), completed := s.completed + 1,
         task := if s.sem.queue == [] then s.task
                 else s.task[s.sem.queue[0] := Rouse(Of(s, s.sem.queue[0]))])
  }

  function Start(disk: DiskImage): State {
    State(L.FREE_LOCK, Sem(0, []), false, 0, disk, map[], [], [], [], 0, [])
  }

  /** The last data written to a sector by the calls of `jobs`. */
  function Latest(initial: DiskImage, jobs: seq<Job>, sector: SectorNumber): Sector {
    if jobs == [] then initial[sector]
    else
      var r := jobs[|jobs| - 1].request;
      if r.Write? && r.sector == sector then r.data
      else Latest(initial, jobs[..|jobs| - 1], sector)
  }

  /** What the k-th of `jobs` has in its buffer when it is done: the last data
      written to its sector by those before it, or the data it writes itself. */
  function Outcome(initial: DiskImage, jobs: seq<Job>, k: nat): Sector
    requires k < |jobs|
  {
    match jobs[k].request
    case Read(sector) => Latest(initial, jobs[..k], sector)
    case Write(_, data) => data
  }

  // ---------- The invariant ----------

  predicate InFlight(k: Task) {
    k.Issued? || k.Sleeping? || k.Roused?
  }

  predicate TaskFits(s: State, t: Tid) {
    var p := L.At(s.lock, t);
    match Of(s, t)
    case Idle => p == L.Out
    case Wanting(_) => p != L.Erased
    case Leaving(n, _) => (p == L.Held || p == L.Erased) && n < s.completed && n < |s.log| && s.log[n].caller == t
    case Issued(n, _) => p == L.Held && n + 1 == |s.log| && s.log[n].caller == t
    case Sleeping(n, _) => p == L.Held && n + 1 == |s.log| && s.log[n].caller == t
    case Roused(n, _) => p == L.Held && n + 1 == |s.log| && s.log[n].caller == t
  }

  predicate HolderInFlight(s: State) {
    s.lock.holder.Some? && InFlight(Of(s, s.lock.holder.value))
  }

  /** The disk, its interrupt and the semaphore are in step with what the
      holder of the lock is doing. */
  predicate DeviceFits(s: State) {
    && s.interrupts == (if s.active then 1 else 0)
    && s.completed + s.interrupts == |s.log|
    && s.sem.queue == (if HolderInFlight(s) && Of(s, s.lock.holder.value).Sleeping?
                       then [s.lock.holder.value] else [])
    && s.sem.value == (if HolderInFlight(s) && !s.active then 1 else 0)
    && (s.active ==> HolderInFlight(s) && !Of(s, s.lock.holder.value).Roused?)
    && (HolderInFlight(s) && Of(s, s.lock.holder.value).Sleeping? ==> s.active)
  }

  ghost predicate DataFits(initial: DiskImage, s: State) {
    && (forall k: SectorNumber :: s.disk[k] == Latest(initial, s.log, k))
    && |s.buffers| == |s.log|
    && (forall n | 0 <= n < |s.log| :: s.buffers[n] == Outcome(initial, s.log, n))
  }

  ghost predicate Inv(initial: DiskImage, s: State) {
    && L.Inv(s.lock)
    && (forall t :: TaskFits(s, t))
    && DeviceFits(s)
    && DataFits(initial, s)
    && (forall k | 0 <= k < |s.returned| :: s.returned[k].n < s.completed)
  }

  // ---------- Every step keeps it ----------

  lemma SubmitIdle(s: State, t: Tid)
    requires L.Inv(s.lock) && DeviceFits(s) && TaskFits(s, t) && Enabled(s, Submit(t))
    ensures s.lock.holder == Some(t) && !s.active && s.sem == Sem(0, [])
  {
  }

  /** A longer record says the same about the calls it had already. */
  lemma AppendedJob(initial: DiskImage, log: seq<Job>, j: Job)
    ensures forall n | 0 <= n < |log| :: Outcome(initial, log + [j], n) == Outcome(initial, log, n)
    ensures Outcome(initial, log + [j], |log|)
         == if j.request.Read? then Latest(initial, log, j.request.sector) else j.request.data
    ensures forall k: SectorNumber :: Latest(initial, log + [j], k)
              == if j.request.Write? && j.request.sector == k then j.request.data else Latest(initial, log, k)
  {
    var log' := log + [j];
    assert log'[..|log|] == log;
    forall n | 0 <= n < |log| ensures Outcome(initial, log', n) == Outcome(initial, log, n) {
      assert log'[..n] == log[..n];
    }
  }

  lemma SubmitKeeps(initial: DiskImage, s: State, t: Tid)
    requires Inv(initial, s) && Enabled(s, Submit(t))
    ensures Inv(initial, Next(s, Submit(t)))
  {
    var s' := Next(s, Submit(t));
    assert TaskFits(s, t);
    SubmitIdle(s, t);
    forall u ensures TaskFits(s', u) {
      assert TaskFits(s, u);
      if u != t && InFlight(Of(s, u)) { L.OneInside(s.lock, t, u); }
    }
    AppendedJob(initial, s.log, s'.log[|s.log|]);
  }

  lemma WaitKeeps(initial: DiskImage, s: State, t: Tid)
    requires Inv(initial, s) && Enabled(s, WaitP(t))
    ensures Inv(initial, Next(s, WaitP(t)))
  {
    var s' := Next(s, WaitP(t));
    assert TaskFits(s, t);
    assert s.lock.holder == Some(t);
    forall u ensures TaskFits(s', u) {
      assert TaskFits(s, u);
    }
  }

  lemma InterruptKeeps(initial: DiskImage, s: State)
    requires Inv(initial, s) && Enabled(s, Interrupt)
    ensures Inv(initial, Next(s, Interrupt))
  {
    var s' := Next(s, Interrupt);
    forall u ensures TaskFits(s', u) {
      assert TaskFits(s, u);
    }
  }

  lemma LockStepFits(initial: DiskImage, s: State, step: L.Step, u: Tid)
    requires Inv(initial, s) && Enabled(s, LockStep(step))
    ensures TaskFits(Next(s, LockStep(step)), u)
  {
    assert TaskFits(s, step.t) && TaskFits(s, u);
    if step.Give? && s.lock.sem.queue != [] {
      var w := s.lock.sem.queue[0];
      assert w in s.lock.sem.queue && L.At(s.lock, w) == L.Asleep;
      assert TaskFits(s, w);
    }
  }

  /** A thread that takes a step on the lock has no request in flight. */
  lemma LockStepQuiet(initial: DiskImage, s: State, step: L.Step)
    requires Inv(initial, s) && Enabled(s, LockStep(step))
    ensures DeviceFits(Next(s, LockStep(step)))
  {
    assert TaskFits(s, step.t);
    if s.lock.holder.Some? {
      var h := s.lock.holder.value;
      assert L.At(s.lock, h) == L.Held;
      if !step.Try? { L.OneInside(s.lock, h, step.t); }
    }
  }

  lemma LockStepKeeps(initial: DiskImage, s: State, step: L.Step)
    requires Inv(initial, s) && Enabled(s, LockStep(step))
    ensures Inv(initial, Next(s, LockStep(step)))
  {
    var s' := Next(s, LockStep(step));
    L.StepKeeps(s.lock, step);
    assert TaskFits(s, step.t);
    forall u ensures TaskFits(s', u) { LockStepFits(initial, s, step, u); }
    LockStepQuiet(initial, s, step);
  }

  lemma StepKeeps(initial: DiskImage, s: State, e: Event)
    requires Inv(initial, s) && Enabled(s, e)
    ensures Inv(initial, Next(s, e))
  {
    match e
    case Call(t, _) =>
      assert TaskFits(s, t);
      forall u ensures TaskFits(Next(s, e), u) { assert TaskFits(s, u); }
    case LockStep(step) => LockStepKeeps(initial, s, step);
    case Submit(t) => SubmitKeeps(initial, s, t);
    case WaitP(t) => WaitKeeps(initial, s, t);
    case Interrupt => InterruptKeeps(initial, s);
  }

  // ---------- The order of the calls ----------

  /** A call whose request the raw disk has taken. */
  predicate Serving(k: Task) {
    InFlight(k) || k.Leaving?
  }

  /** The call that has the lock and has not made its request. */
  function Entering(s: State): seq<Job> {
    if s.lock.holder.Some? && Of(s, s.lock.holder.value).Wanting?
    then [Job(s.lock.holder.value, Of(s, s.lock.holder.value).request)] else []
  }

  /** A call whose request was taken is the next to return, with what the disk
      put into its buffer. */
  predicate NextToReturn(s: State, t: Tid) {
    Serving(Of(s, t)) ==>
      && |s.log| == |s.returned| + 1 && |s.buffers| == |s.log|
      && s.log[|s.returned|].caller == t
      && Of(s, t).n == |s.returned| && Of(s, t).buffer == s.buffers[|s.returned|]
  }

  /** The k-th call to return is the k-th whose request was taken. */
  predicate ReturnFits(s: State, k: nat)
    requires k < |s.returned|
  {
    && k < |s.log| == |s.buffers|
    && s.returned[k] == Reply(s.log[k].caller, k, s.buffers[k])
  }

  /** Requests are taken in the order in which their callers got the lock, and
      calls return in that order. */
  ghost predicate Orderly(s: State) {
    && s.granted == s.log + Entering(s)
    && (forall t :: NextToReturn(s, t))
    && (|s.log| == |s.returned| || exists t :: Serving(Of(s, t)))
    && (forall k | 0 <= k < |s.returned| :: ReturnFits(s, k))
  }

  /** Nobody's request is taken and nobody returns. */
  lemma SameServers(s: State, s': State)
    requires Orderly(s)
    requires s'.log == s.log && s'.buffers == s.buffers && s'.returned == s.returned
    requires forall t :: (Serving(Of(s', t)) <==> Serving(Of(s, t)))
    requires forall t | Serving(Of(s, t)) && Serving(Of(s', t)) ::
               Of(s', t).n == Of(s, t).n && Of(s', t).buffer == Of(s, t).buffer
    requires s'.granted == s'.log + Entering(s')
    ensures Orderly(s')
  {
    forall t ensures NextToReturn(s', t) { assert NextToReturn(s, t); }
    forall k | 0 <= k < |s'.returned| ensures ReturnFits(s', k) { assert ReturnFits(s, k); }
    if |s.log| != |s.returned| {
      var t :| Serving(Of(s, t));
      assert Serving(Of(s', t));
    }
  }

  /** Whoever makes a request is alone inside, so every request before it has
      returned. */
  lemma SubmitOrderly(initial: DiskImage, s: State, t: Tid)
    requires Inv(initial, s) && Orderly(s) && Enabled(s, Submit(t))
    ensures Orderly(Next(s, Submit(t)))
  {
    var s' := Next(s, Submit(t));
    assert s.lock.holder == Some(t);
    forall u ensures !Serving(Of(s, u)) {
      assert TaskFits(s, u);
      if u != t && Serving(Of(s, u)) { L.OneInside(s.lock, t, u); }
    }
    forall u ensures NextToReturn(s', u) { assert !Serving(Of(s, u)); }
    assert Serving(Of(s', t));
    forall k | 0 <= k < |s'.returned| ensures ReturnFits(s', k) { assert ReturnFits(s, k); }
  }

  lemma RecordOrderly(initial: DiskImage, s: State, t: Tid)
    requires Inv(initial, s) && Orderly(s) && Enabled(s, LockStep(L.Record(t)))
    ensures Orderly(Next(s, LockStep(L.Record(t))))
  {
    if s.lock.holder.Some? {
      assert L.At(s.lock, s.lock.holder.value) == L.Held;
      L.OneInside(s.lock, s.lock.holder.value, t);
    }
    SameServers(s, Next(s, LockStep(L.Record(t))));
  }

  lemma GiveOrderly(initial: DiskImage, s: State, t: Tid)
    requires Inv(initial, s) && Orderly(s) && Enabled(s, LockStep(L.Give(t)))
    ensures Orderly(Next(s, LockStep(L.Give(t))))
  {
    var s' := Next(s, LockStep(L.Give(t)));
    assert TaskFits(s, t) && NextToReturn(s, t);
    if s.lock.holder.Some? {
      assert L.At(s.lock, s.lock.holder.value) == L.Held;
      L.OneInside(s.lock, s.lock.holder.value, t);
    }
    forall u ensures NextToReturn(s', u) {
      assert TaskFits(s, u);
      if u != t && Serving(Of(s, u)) { L.OneInside(s.lock, t, u); }
    }
    forall k | 0 <= k < |s'.returned| ensures ReturnFits(s', k) {
      if k < |s.returned| { assert ReturnFits(s, k); }
    }
  }

  lemma OtherOrderly(initial: DiskImage, s: State, e: Event)
    requires Inv(initial, s) && Orderly(s) && Enabled(s, e)
    requires e.Call? || e.WaitP? || e.Interrupt? || (e.LockStep? && (e.step.Try? || e.step.Erase?))
    ensures Orderly(Next(s, e))
  {
    var s' := Next(s, e);
    if e.Call? { assert TaskFits(s, e.t); }
    if e.LockStep? { assert TaskFits(s, e.step.t); }
    if s.lock.holder.Some? { assert TaskFits(s, s.lock.holder.value); }
    SameServers(s, s');
  }

  lemma StepStaysOrderly(initial: DiskImage, s: State, e: Event)
    requires Inv(initial, s) && Orderly(s) && Enabled(s, e)
    ensures Orderly(Next(s, e))
  {
    if e.Submit? {
      SubmitOrderly(initial, s, e.t);
    } else if e.LockStep? && e.step.Record? {
      RecordOrderly(initial, s, e.step.t);
    } else if e.LockStep? && e.step.Give? {
      GiveOrderly(initial, s, e.step.t);
    } else {
      OtherOrderly(initial, s, e);
    }
  }

  // ---------- Every run ----------

  predicate Feasible(s: State, es: seq<Event>)
    decreases |es|
  {
    es != [] ==> Enabled(s, es[0]) && Feasible(Next(s, es[0]), es[1..])
  }

  function After(s: State, es: seq<Event>): State
    requires Feasible(s, es)
    decreases |es|
  {
    if es == [] then s else After(Next(s, es[0]), es[1..])
  }

  lemma {:induction false} RunKeeps(initial: DiskImage, s: State, es: seq<Event>)
    requires Inv(initial, s) && Feasible(s, es)
    ensures Inv(initial, After(s, es))
    decreases |es|
  {
    if es != [] {
      StepKeeps(initial, s, es[0]);
      RunKeeps(initial, Next(s, es[0]), es[1..]);
    }
  }

  lemma ReachableInv(initial: DiskImage, es: seq<Event>)
    requires Feasible(Start(initial), es)
    ensures Inv(initial, After(Start(initial), es))
  {
    L.FreeLockInv();
    forall t ensures TaskFits(Start(initial), t) {}
    RunKeeps(initial, Start(initial), es);
  }

  /** One request at a time: the raw disk's assertion that it is not active
      never fires, a disk interrupt is pending exactly while it is active, the
      semaphore never counts more than one, and a caller sleeps only while its
      interrupt is still to come. */
  lemma OneRequestAtATime(initial: DiskImage, es: seq<Event>)
    requires Feasible(Start(initial), es)
    ensures var s := After(Start(initial), es);
            && (forall t | Enabled(s, Submit(t)) :: !s.active)
            && s.interrupts == (if s.active then 1 else 0)
            && s.sem.value <= 1
            && (forall t | Of(s, t).Sleeping? :: s.active)
  {
    ReachableInv(initial, es);
    var s := After(Start(initial), es);
    forall t | Enabled(s, Submit(t)) ensures !s.active {
      assert TaskFits(s, t);
      SubmitIdle(s, t);
    }
    forall t | Of(s, t).Sleeping? ensures s.active {
      assert TaskFits(s, t);
    }
  }

  /** A call that has passed its P, or has returned, has seen the interrupt of
      its own request: interrupts come in the order of the requests, and more of
      them than the number of that request have been handled. */
  lemma ReturnsAfterOwnInterrupt(initial: DiskImage, es: seq<Event>)
    requires Feasible(Start(initial), es)
    ensures var s := After(Start(initial), es);
            && s.completed <= |s.log|
            && (forall k | 0 <= k < |s.returned| :: s.returned[k].n < s.completed)
            && (forall t | Of(s, t).Leaving? :: Of(s, t).n < s.completed && s.log[Of(s, t).n].caller == t)
  {
    ReachableInv(initial, es);
    var s := After(Start(initial), es);
    forall t | Of(s, t).Leaving? ensures Of(s, t).n < s.completed && s.log[Of(s, t).n].caller == t {
      assert TaskFits(s, t);
    }
  }

  lemma {:induction false} RunStaysOrderly(initial: DiskImage, s: State, es: seq<Event>)
    requires Inv(initial, s) && Orderly(s) && Feasible(s, es)
    ensures Orderly(After(s, es))
    decreases |es|
  {
    if es != [] {
      StepKeeps(initial, s, es[0]);
      StepStaysOrderly(initial, s, es[0]);
      RunStaysOrderly(initial, Next(s, es[0]), es[1..]);
    }
  }

  lemma ReachableOrderly(initial: DiskImage, es: seq<Event>)
    requires Feasible(Start(initial), es)
    ensures Orderly(After(Start(initial), es))
  {
    L.FreeLockInv();
    forall t ensures TaskFits(Start(initial), t) && NextToReturn(Start(initial), t) {}
    RunStaysOrderly(initial, Start(initial), es);
  }

  /** Under every interleaving the k-th call to return is the k-th that got the
      lock, and brings back the last data written to its sector by the calls that
      got the lock before it.  At most one call has the lock and has not returned,
      and the disk holds the last data written by those that have made their
      request. */
  lemma ReadsLastWrite(initial: DiskImage, es: seq<Event>)
    requires Feasible(Start(initial), es)
    ensures var s := After(Start(initial), es);
            && |s.returned| <= |s.granted| <= |s.returned| + 1
            && (forall k | 0 <= k < |s.returned| ::
                  s.returned[k] == Reply(s.granted[k].caller, k, Outcome(initial, s.granted, k)))
            && s.granted == s.log + Entering(s)
            && (forall k: SectorNumber :: s.disk[k] == Latest(initial, s.log, k))
  {
    ReachableInv(initial, es);
    ReachableOrderly(initial, es);
    var s := After(Start(initial), es);
    forall k | 0 <= k < |s.returned|
      ensures s.returned[k] == Reply(s.granted[k].caller, k, Outcome(initial, s.granted, k))
    {
      assert ReturnFits(s, k);
      assert s.granted[..k] == s.log[..k];
    }
    GrantedAtMostOneMore(initial, s);
  }

  lemma GrantedAtMostOneMore(initial: DiskImage, s: State)
    requires Inv(initial, s) && Orderly(s)
    ensures |s.returned| <= |s.granted| <= |s.returned| + 1
  {
    if t :| Serving(Of(s, t)) {
      assert NextToReturn(s, t) && TaskFits(s, t);
      if s.lock.holder.Some? {
        assert L.At(s.lock, s.lock.holder.value) == L.Held;
        L.OneInside(s.lock, s.lock.holder.value, t);
      }
    }
  }

  // ---------- No deadlock ----------

  /** Some call that has begun can go on, or the disk interrupts. */
  ghost predicate CanMove(s: State) {
    exists e: Event :: Enabled(s, e) && !e.Call?
  }

  lemma InsiderMoves(initial: DiskImage, s: State, t: Tid)
    requires Inv(initial, s) && L.Inside(L.At(s.lock, t))
    ensures CanMove(s)
  {
    assert TaskFits(s, t);
    var p := L.At(s.lock, t);
    var e := if p == L.Got then LockStep(L.Record(t))
             else if p == L.Erased then LockStep(L.Give(t))
             else if Of(s, t).Wanting? then Submit(t)
             else if Of(s, t).Leaving? then LockStep(L.Erase(t))
             else if Of(s, t).Sleeping? then Interrupt
             else WaitP(t);
    assert Enabled(s, e);
  }

  /** In every reachable state in which a call has begun and not returned, some
      call can go on or the disk interrupts. */
  lemma NoDeadlock(initial: DiskImage, es: seq<Event>, t: Tid)
    requires Feasible(Start(initial), es) && !Of(After(Start(initial), es), t).Idle?
    ensures CanMove(After(Start(initial), es))
  {
    ReachableInv(initial, es);
    var s := After(Start(initial), es);
    assert TaskFits(s, t);
    var p := L.At(s.lock, t);
    if p == L.Out || p == L.Woken {
      assert Enabled(s, LockStep(L.Try(t)));
    } else if p == L.Asleep {
      var u := L.SleeperHasCause(s.lock, t);
      assert TaskFits(s, u);
      if L.At(s.lock, u) == L.Woken {
        assert Enabled(s, LockStep(L.Try(u)));
      } else {
        InsiderMoves(initial, s, u);
      }
    } else {
      InsiderMoves(initial, s, t);
    }
  }

  // ---------- Every call returns ----------

  /** How many steps are left to a call, counting one more for each other call
      that its release of the lock may wake. */
  function StepsLeft(k: Task, p: L.Pc): nat {
    match k
    case Idle => 0
    case Wanting(_) =>
      if p == L.Out || p == L.Woken then 11 else if p == L.Asleep then 10 else if p == L.Got then 9 else 8
    case Issued(_, _) => 6
    case Sleeping(_, _) => 5
    case Roused(_, _) => 4
    case Leaving(_, _) => if p == L.Held then 3 else 2
  }

  ghost function AllStepsLeft(s: State): map<Tid, nat> {
    map t | t in s.task :: StepsLeft(s.task[t], L.At(s.lock, t))
  }

  ghost function Measure(s: State): nat {
    Sum(AllStepsLeft(s)) + s.interrupts
  }

  /** A step that concerns one thread. */
  lemma OneChanged(s: State, s': State, t: Tid)
    requires t in s'.task && s'.task == s.task[t := s'.task[t]]
    requires forall u | u != t :: L.At(s'.lock, u) == L.At(s.lock, u)
    ensures Sum(AllStepsLeft(s')) == Sum(AllStepsLeft(s)) - StepsLeft(Of(s, t), L.At(s.lock, t))
                                     + StepsLeft(Of(s', t), L.At(s'.lock, t))
  {
    var left := StepsLeft(Of(s', t), L.At(s'.lock, t));
    assert AllStepsLeft(s') == AllStepsLeft(s)[t := left];
    SumUpdated(AllStepsLeft(s), t, left);
  }

  /** The release of the lock brings one waiting call a step back. */
  lemma GiveDecreases(initial: DiskImage, s: State, t: Tid)
    requires Inv(initial, s) && Enabled(s, LockStep(L.Give(t)))
    ensures Measure(Next(s, LockStep(L.Give(t)))) < Measure(s)
  {
    var s' := Next(s, LockStep(L.Give(t)));
    assert TaskFits(s, t);
    if s.lock.sem.queue == [] {
      OneChanged(s, s', t);
    } else {
      var w := s.lock.sem.queue[0];
      assert w in s.lock.sem.queue && L.At(s.lock, w) == L.Asleep && TaskFits(s, w);
      var mid := s'.(lock := s'.lock.(pc := s'.lock.pc[w := L.Asleep]));
      OneChanged(s, mid, t);
      OneChanged(mid, s', w);
    }
  }

  lemma LockStepDecreases(initial: DiskImage, s: State, step: L.Step)
    requires Inv(initial, s) && Enabled(s, LockStep(step))
    ensures Measure(Next(s, LockStep(step))) < Measure(s)
  {
    if step.Give? {
      GiveDecreases(initial, s, step.t);
    } else {
      assert TaskFits(s, step.t);
      OneChanged(s, Next(s, LockStep(step)), step.t);
    }
  }

  /** A step of one thread that does not touch the lock. */
  lemma TaskChanged(s: State, s': State, t: Tid, k: Task)
    requires s'.lock == s.lock && s'.task == s.task[t := k]
    ensures Measure(s') - s'.interrupts
         == Measure(s) - s.interrupts - StepsLeft(Of(s, t), L.At(s.lock, t)) + StepsLeft(k, L.At(s.lock, t))
  {
    OneChanged(s, s', t);
  }

  lemma InterruptDecreases(initial: DiskImage, s: State)
    requires Inv(initial, s) && Enabled(s, Interrupt)
    ensures Measure(Next(s, Interrupt)) < Measure(s)
  {
    var s' := Next(s, Interrupt);
    if s.sem.queue == [] {
      assert AllStepsLeft(s') == AllStepsLeft(s);
    } else {
      var w := s.sem.queue[0];
      TaskChanged(s, s', w, Rouse(Of(s, w)));
    }
  }

  lemma SubmitDecreases(initial: DiskImage, s: State, t: Tid)
    requires Inv(initial, s) && Enabled(s, Submit(t))
    ensures Measure(Next(s, Submit(t))) < Measure(s)
  {
    var s' := Next(s, Submit(t));
    TaskChanged(s, s', t, s'.task[t]);
  }

  lemma WaitDecreases(initial: DiskImage, s: State, t: Tid)
    requires Inv(initial, s) && Enabled(s, WaitP(t))
    ensures Measure(Next(s, WaitP(t))) < Measure(s)
  {
    var s' := Next(s, WaitP(t));
    assert TaskFits(s, t);
    TaskChanged(s, s', t, s'.task[t]);
  }

  /** Every step but the beginning of a call brings the calls nearer to their
      end; a new call has eleven steps to go. */
  lemma StepDecreases(initial: DiskImage, s: State, e: Event)
    requires Inv(initial, s) && Enabled(s, e)
    ensures if e.Call? then Measure(Next(s, e)) == Measure(s) + 11 else Measure(Next(s, e)) < Measure(s)
  {
    match e
    case Call(t, request) =>
      assert TaskFits(s, t);
      TaskChanged(s, Next(s, e), t, Wanting(request));
    case LockStep(step) => LockStepDecreases(initial, s, step);
    case Submit(t) => SubmitDecreases(initial, s, t);
    case WaitP(t) => WaitDecreases(initial, s, t);
    case Interrupt => InterruptDecreases(initial, s);
  }

  function Calls(es: seq<Event>): nat {
    if es == [] then 0 else (if es[0].Call? then 1 else 0) + Calls(es[1..])
  }

  lemma {:induction false} RunDecreases(initial: DiskImage, s: State, es: seq<Event>)
    requires Inv(initial, s) && Feasible(s, es)
    ensures |es| + Measure(After(s, es)) <= Measure(s) + 12 * Calls(es)
    decreases |es|
  {
    if es != [] {
      StepKeeps(initial, s, es[0]);
      StepDecreases(initial, s, es[0]);
      RunDecreases(initial, Next(s, es[0]), es[1..]);
    }
  }

  /** The threads with a call under way. */
  ghost function Callers(task: map<Tid, Task>): set<Tid> {
    set t | t in task && !task[t].Idle?
  }

  lemma CallersChanged(task: map<Tid, Task>, t: Tid, k: Task)
    ensures var busy := t in task && !task[t].Idle?;
            |Callers(task[t := k])| == |Callers(task)| - (if busy then 1 else 0) + (if k.Idle? then 0 else 1)
  {
    assert Callers(task[t := k]) == if k.Idle? then Callers(task) - {t} else Callers(task) + {t};
  }

  lemma StepAccounts(s: State, e: Event)
    requires Enabled(s, e) && (forall t | t in s.sem.queue :: Of(s, t).Sleeping?)
    ensures |Next(s, e).returned| + |Callers(Next(s, e).task)|
         == |s.returned| + |Callers(s.task)| + if e.Call? then 1 else 0
  {
    var s' := Next(s, e);
    if e.LockStep? {
      if e.step.Give? { CallersChanged(s.task, e.step.t, Idle); }
    } else if e.Interrupt? {
      if s.sem.queue != [] {
        var w := s.sem.queue[0];
        assert w in s.sem.queue;
        CallersChanged(s.task, w, s'.task[w]);
      }
    } else {
      CallersChanged(s.task, e.t, s'.task[e.t]);
    }
  }

  lemma {:induction false} RunAccounts(initial: DiskImage, s: State, es: seq<Event>)
    requires Inv(initial, s) && Feasible(s, es)
    ensures |After(s, es).returned| + |Callers(After(s, es).task)|
         == |s.returned| + |Callers(s.task)| + Calls(es)
    decreases |es|
  {
    if es != [] {
      StepKeeps(initial, s, es[0]);
      StepAccounts(s, es[0]);
      RunAccounts(initial, Next(s, es[0]), es[1..]);
    }
  }

  /** No run takes more than twelve steps a call, under any scheduling, and when no
      step is left every call that began has returned. */
  lemma EveryCallReturns(initial: DiskImage, es: seq<Event>)
    requires Feasible(Start(initial), es)
    ensures |es| <= 12 * Calls(es)
    ensures var s := After(Start(initial), es);
            !CanMove(s) ==> |s.returned| == Calls(es) && forall t :: Of(s, t).Idle?
  {
    ReachableInv(initial, []);
    RunDecreases(initial, Start(initial), es);
    assert AllStepsLeft(Start(initial)) == map[];
    RunAccounts(initial, Start(initial), es);
    assert Callers(Start(initial).task) == {};
    var s := After(Start(initial), es);
    if !CanMove(s) {
      forall t ensures Of(s, t).Idle? {
        if !Of(s, t).Idle? { NoDeadlock(initial, es, t); }
      }
      forall t ensures t !in Callers(s.task) { assert Of(s, t).Idle?; }
      assert Callers(s.task) == {};
    }
  }
}
