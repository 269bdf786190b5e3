/** The simulated clock and the queue of pending interrupts
    (machine/interrupt.cc), with the devices that schedule from their handlers
    (machine/timer.cc, machine/console.cc, machine/disk.cc). */
module Interrupts {
  import opened Lists
  import opened Wrappers

  const SYSTEM_TICK := 10
  const USER_TICK := 1
  const TIMER_TICKS := 100
  const CONSOLE_TIME := 100

  datatype Kind = TimerInt | DiskInt | ConsoleWriteInt | ConsoleReadInt

  datatype Mode = IdleMode | SystemMode | UserMode

  /** A scheduled interrupt; `id` tells them apart and counts the calls of
      `Schedule`. */
  datatype Pending = Pending(when: int, kind: Kind, id: nat)

  /** What the outside world has in store for one handler: a random number for
      the timer, whether a key was pressed, and how many threads the handler's
      client makes ready. */
  datatype Input = Input(random: nat, key: bool, wakes: nat)

  function InputAt(inputs: seq<Input>, n: nat): Input {
    if n < |inputs| then inputs[n] else Input(0, false, 0)
  }

  /** The clock and what its ticks were spent on. */
  datatype Stats = Stats(total: int, idle: int, system: int, user: int)

  /** Every interrupt ever scheduled and ever handled, and the time at which it
      was handled. */
  datatype History = History(scheduled: seq<Pending>, fired: seq<Pending>, firedAt: seq<int>)

  datatype Core = Core(stats: Stats, pending: seq<Pending>, log: History)

  /** `ready` is the number of threads on the ready list. */
  datatype State = State(
    core: Core, mode: Mode, yieldOnReturn: bool, ready: nat,
    randomize: bool, timerOff: bool, consoleOff: bool)

  function ComparePending(x: Pending, y: Pending): (r: int)
    ensures (r < 0 <==> x.when < y.when) && (r > 0 <==> x.when > y.when)
  {
    if x.when < y.when then -1 else if x.when > y.when then 1 else 0
  }

  /** The queue with one more interrupt, behind those for the same time. */
  function Enqueued(s: seq<Pending>, p: Pending): (r: seq<Pending>)
    ensures |r| == |s| + 1
  {
    if s == [] || p.when < s[0].when then [p] + s else [s[0]] + Enqueued(s[1..], p)
  }

  /** The queue is a sorted list. */
  lemma {:induction false} EnqueuedIsInserted(s: seq<Pending>, p: Pending)
    ensures Enqueued(s, p) == Inserted(s, p, ComparePending)
  {
    if s != [] && p.when >= s[0].when {
      EnqueuedIsInserted(s[1..], p);
      PlaceUnique(s, p, ComparePending, 1 + Place(s[1..], p, ComparePending, 0));
      assert Inserted(s, p, ComparePending) == [s[0]] + Inserted(s[1..], p, ComparePending);
    } else {
      PlaceUnique(s, p, ComparePending, 0);
      assert Inserted(s, p, ComparePending) == [p] + s;
    }
  }

  /** `Schedule`; the code asserts that the delay is positive. */
  function Scheduled(c: Core, fromNow: int, kind: Kind): Core
    requires fromNow > 0
  {
    var p := Pending(c.stats.total + fromNow, kind, |c.log.scheduled|);
    c.(pending := Enqueued(c.pending, p), log := c.log.(scheduled := c.log.scheduled + [p]))
  }

  function Requested(c: Core, kind: Kind, delay: Option<int>): Core
    requires delay.Some? ==> delay.value > 0
  {
    match delay
    case None => c
    case Some(d) => Scheduled(c, d, kind)
  }

  /** When the device that interrupts wants its next interrupt, if it does. */
  function NextRequest(s: State, kind: Kind, input: Input): (delay: Option<int>)
    ensures delay.Some? ==> delay.value > 0
    ensures s.timerOff && s.consoleOff ==> delay.None?
  {
    match kind
    case TimerInt =>
      if s.timerOff then None
      else Some(if s.randomize then 1 + input.random % (TIMER_TICKS * 2) else TIMER_TICKS)
    case ConsoleReadInt => if s.consoleOff || input.key then None else Some(CONSOLE_TIME)
    case _ => None
  }

  /** The threads made ready by the client of the device. */
  function Woken(s: State, kind: Kind, input: Input): nat {
    match kind
    case TimerInt => 0
    case ConsoleReadInt => if s.consoleOff || !input.key then 0 else input.wakes
    case _ => input.wakes
  }

  function Popped(c: Core): Core
    requires c.pending != []
  {
    Core(c.stats, c.pending[1..],
         c.log.(fired := c.log.fired + [c.pending[0]], firedAt := c.log.firedAt + [c.stats.total]))
  }

  /** What a handler does once its interrupt is off the queue. */
  function HandlerEffect(s: State, kind: Kind, input: Input): State {
    s.(core := Requested(s.core, kind, NextRequest(s, kind, input)),
       ready := s.ready + Woken(s, kind, input),
       yieldOnReturn := s.yieldOnReturn || (kind.TimerInt? && !s.mode.IdleMode?))
  }

  /** One turn of the firing loop: take the first interrupt off and call it. */
  function Fire(s: State, input: Input): State
    requires s.core.pending != []
  {
    HandlerEffect(s.(core := Popped(s.core)), s.core.pending[0].kind, input)
  }

  predicate IsDue(c: Core) {
    c.pending != [] && c.pending[0].when <= c.stats.total
  }

  /** How many of the pending interrupts, from the front, are due. */
  function DueCount(pending: seq<Pending>, now: int): nat {
    if pending == [] || pending[0].when > now then 0 else 1 + DueCount(pending[1..], now)
  }

  /** The firing loop, fed by `inputs`: the n-th handler ever called meets the
      n-th of them. */
  function Drained(s: State, inputs: seq<Input>): State
    decreases DueCount(s.core.pending, s.core.stats.total)
  {
    if !IsDue(s.core) then s
    else
      FireShrinksDue(s, InputAt(inputs, |s.core.log.fired|));
      Drained(Fire(s, InputAt(inputs, |s.core.log.fired|)), inputs)
  }

  /** A handler schedules strictly in the future, so nothing new is due. */
  lemma FireShrinksDue(s: State, input: Input)
    requires IsDue(s.core)
    ensures var c := Fire(s, input).core;
            && c.stats.total == s.core.stats.total
            && DueCount(c.pending, c.stats.total) == DueCount(s.core.pending, c.stats.total) - 1
  {
    var p := s.core.pending[0];
    match NextRequest(s, p.kind, input)
    case None =>
    case Some(delay) =>
      var now := s.core.stats.total;
      InsertLater(s.core.pending[1..], Pending(now + delay, p.kind, |s.core.log.scheduled|), now);
  }

  lemma {:induction false} InsertLater(pending: seq<Pending>, p: Pending, now: int)
    requires p.when > now
    ensures DueCount(Enqueued(pending, p), now) == DueCount(pending, now)
  {
    if pending == [] || p.when < pending[0].when {
    } else {
      InsertLater(pending[1..], p, now);
    }
  }

  /** `CheckIfDue`: the new state, and whether any handler was called. */
  function Checked(s: State, advanceClock: bool, inputs: seq<Input>): (State, bool) {
    var c := s.core;
    if c.pending == [] then (s, false)
    else if c.pending[0].when <= c.stats.total then (Drained(s, inputs), true)
    else if !advanceClock then (s, false)
    else (Drained(s.(core := Advanced(c)), inputs), true)
  }

  /** The clock jumps to the next interrupt. */
  function Advanced(c: Core): Core
    requires c.pending != []
  {
    var next := c.pending[0].when;
    c.(stats := c.stats.(idle := c.stats.idle + (next - c.stats.total), total := next))
  }

  function Advance(c: Core, mode: Mode): Core {
    var st := c.stats;
    c.(stats := if mode.SystemMode? then st.(total := st.total + SYSTEM_TICK, system := st.system + SYSTEM_TICK)
                else st.(total := st.total + USER_TICK, user := st.user + USER_TICK))
  }

  /** `OneTick`, up to the switch it may ask for. */
  function Ticked(s: State, inputs: seq<Input>): State {
    Checked(s.(core := Advance(s.core, s.mode)), false, inputs).0.(yieldOnReturn := false)
  }

  /** A handler has asked, at this tick or before, for the switch that ends it. */
  predicate AsksToYield(s: State, inputs: seq<Input>) {
    Checked(s.(core := Advance(s.core, s.mode)), false, inputs).0.yieldOnReturn
  }

  /** `Idle`: the new state, and whether the machine goes on. */
  function Idled(s: State, inputs: seq<Input>): (State, bool) {
    var (s1, fired) := Checked(s.(mode := IdleMode), true, inputs);
    (if fired then s1.(mode := SystemMode) else s1, fired)
  }

  /** `Kernel::PrepareToEnd`. */
  function Ending(s: State): State {
    s.(timerOff := true, consoleOff := true)
  }

  // ---------- The invariant ----------

  /** In order of time, and of scheduling for equal times. */
  predicate Before(p: Pending, q: Pending) {
    p.when < q.when || (p.when == q.when && p.id < q.id)
  }

  predicate Ordered(s: seq<Pending>) {
    forall i, j | 0 <= i < j < |s| :: Before(s[i], s[j])
  }

  predicate AllAfter(s: seq<Pending>, now: int) {
    forall i | 0 <= i < |s| :: s[i].when > now
  }

  predicate AllOlder(s: seq<Pending>, n: nat) {
    forall i | 0 <= i < |s| :: s[i].id < n
  }

  /** No interrupt was handled before its time, and none later than one tick
      after it. */
  predicate OnTime(c: Core) {
    && |c.log.fired| == |c.log.firedAt|
    && (forall i | 0 <= i < |c.log.fired| ::
          c.log.fired[i].when <= c.log.firedAt[i] < c.log.fired[i].when + SYSTEM_TICK)
    && (forall i | 0 <= i < |c.log.fired| :: c.log.firedAt[i] <= c.stats.total)
  }

  /** Every tick of the clock was spent idle, in the kernel or in user mode. */
  predicate Balanced(c: Core) {
    c.stats.total == c.stats.idle + c.stats.system + c.stats.user
  }

  /** All interrupts, in the order in which they have fired and will fire. */
  function Timeline(c: Core): seq<Pending> {
    c.log.fired + c.pending
  }

  /** Each interrupt scheduled is on the timeline once, at its place. */
  ghost predicate Arranged(timeline: seq<Pending>, scheduled: seq<Pending>) {
    && Ordered(timeline)
    && AllOlder(timeline, |scheduled|)
    && multiset(timeline) == multiset(scheduled)
  }

  /** What holds throughout, also between two handlers. */
  ghost predicate Steady(c: Core) {
    && Balanced(c)
    && Arranged(Timeline(c), c.log.scheduled)
    && AllAfter(c.pending, c.stats.total - SYSTEM_TICK)
    && OnTime(c)
  }

  ghost predicate Inv(c: Core) {
    Steady(c) && AllAfter(c.pending, c.stats.total)
  }

  lemma {:induction false} InsertMembers(s: seq<Pending>, p: Pending)
    ensures multiset(Enqueued(s, p)) == multiset(s) + multiset{p}
  {
    if s != [] && p.when >= s[0].when {
      InsertMembers(s[1..], p);
      assert s == [s[0]] + s[1..];
    }
  }

  lemma InsertMember(s: seq<Pending>, p: Pending, j: nat)
    requires j < |Enqueued(s, p)|
    ensures Enqueued(s, p)[j] == p || Enqueued(s, p)[j] in s
  {
    InsertMembers(s, p);
    assert Enqueued(s, p)[j] in multiset(s) + multiset{p};
  }

  lemma {:induction false} InsertKeepsOrder(s: seq<Pending>, p: Pending)
    requires Ordered(s) && AllOlder(s, p.id)
    ensures Ordered(Enqueued(s, p))
  {
    if s != [] && p.when >= s[0].when {
      var rest := s[1..];
      InsertKeepsOrder(rest, p);
      var inserted := Enqueued(rest, p);
      forall j | 0 <= j < |inserted| ensures Before(s[0], inserted[j]) {
        InsertMember(rest, p, j);
      }
    }
  }

  /** A new interrupt goes behind everything that has fired. */
  lemma {:induction false} InsertPastFired(fired: seq<Pending>, pending: seq<Pending>, p: Pending)
    requires forall i | 0 <= i < |fired| :: fired[i].when <= p.when
    ensures Enqueued(fired + pending, p) == fired + Enqueued(pending, p)
  {
    if fired == [] {
      assert fired + pending == pending;
    } else {
      InsertPastFired(fired[1..], pending, p);
      assert (fired + pending)[1..] == fired[1..] + pending;
    }
  }

  lemma InsertAfter(s: seq<Pending>, p: Pending, now: int)
    requires AllAfter(s, now) && p.when > now
    ensures AllAfter(Enqueued(s, p), now)
  {
    var inserted := Enqueued(s, p);
    forall j | 0 <= j < |inserted| ensures inserted[j].when > now { InsertMember(s, p, j); }
  }

  lemma InsertOlder(s: seq<Pending>, p: Pending)
    requires AllOlder(s, p.id)
    ensures AllOlder(Enqueued(s, p), p.id + 1)
  {
    var inserted := Enqueued(s, p);
    forall j | 0 <= j < |inserted| ensures inserted[j].id < p.id + 1 { InsertMember(s, p, j); }
  }

  lemma InsertArranged(timeline: seq<Pending>, scheduled: seq<Pending>, p: Pending)
    requires Arranged(timeline, scheduled) && p.id == |scheduled|
    ensures Arranged(Enqueued(timeline, p), scheduled + [p])
  {
    InsertKeepsOrder(timeline, p);
    InsertOlder(timeline, p);
    InsertMembers(timeline, p);
  }

  lemma ScheduleKeeps(c: Core, fromNow: int, kind: Kind)
    requires Steady(c) && fromNow > 0
    ensures Steady(Scheduled(c, fromNow, kind))
    ensures AllAfter(c.pending, c.stats.total) ==> AllAfter(Scheduled(c, fromNow, kind).pending, c.stats.total)
  {
    var p := Pending(c.stats.total + fromNow, kind, |c.log.scheduled|);
    InsertPastFired(c.log.fired, c.pending, p);
    InsertArranged(Timeline(c), c.log.scheduled, p);
    InsertAfter(c.pending, p, c.stats.total - SYSTEM_TICK);
    if AllAfter(c.pending, c.stats.total) { InsertAfter(c.pending, p, c.stats.total); }
  }

  lemma PopKeeps(c: Core)
    requires Steady(c) && IsDue(c)
    ensures Steady(Popped(c))
  {
    assert Timeline(Popped(c)) == Timeline(c);
  }

  lemma FireKeeps(s: State, input: Input)
    requires Steady(s.core) && IsDue(s.core)
    ensures Steady(Fire(s, input).core)
  {
    PopKeeps(s.core);
    var kind := s.core.pending[0].kind;
    match NextRequest(s, kind, input)
    case None =>
    case Some(delay) => ScheduleKeeps(Popped(s.core), delay, kind);
  }

  lemma NothingDue(c: Core)
    requires Steady(c) && !IsDue(c)
    ensures Inv(c)
  {
    forall j | 0 <= j < |c.pending| ensures c.pending[j].when > c.stats.total {
      assert Timeline(c)[|c.log.fired|] == c.pending[0] && Timeline(c)[|c.log.fired| + j] == c.pending[j];
    }
  }

  lemma {:induction false} DrainKeeps(s: State, inputs: seq<Input>)
    requires Steady(s.core)
    ensures Inv(Drained(s, inputs).core)
    decreases DueCount(s.core.pending, s.core.stats.total)
  {
    if IsDue(s.core) {
      var input := InputAt(inputs, |s.core.log.fired|);
      FireKeeps(s, input);
      FireShrinksDue(s, input);
      DrainKeeps(Fire(s, input), inputs);
    } else {
      NothingDue(s.core);
    }
  }

  lemma AdvanceKeeps(c: Core)
    requires Steady(c) && c.pending != [] && c.pending[0].when > c.stats.total
    ensures Steady(Advanced(c))
  {
    var c' := Advanced(c);
    assert Timeline(c') == Timeline(c);
    forall j | 0 <= j < |c.pending| ensures c.pending[j].when >= c.pending[0].when {
      assert Timeline(c)[|c.log.fired|] == c.pending[0] && Timeline(c)[|c.log.fired| + j] == c.pending[j];
    }
  }

  lemma CheckKeeps(s: State, advanceClock: bool, inputs: seq<Input>)
    requires Steady(s.core)
    ensures Inv(Checked(s, advanceClock, inputs).0.core)
  {
    if s.core.pending == [] || (s.core.pending[0].when > s.core.stats.total && !advanceClock) {
      NothingDue(s.core);
    } else if s.core.pending[0].when > s.core.stats.total {
      AdvanceKeeps(s.core);
      DrainKeeps(s.(core := Advanced(s.core)), inputs);
    } else {
      DrainKeeps(s, inputs);
    }
  }

  // ---------- One call of CheckIfDue ----------

  lemma {:induction false} InsertLaterAt(pending: seq<Pending>, p: Pending, now: int, j: nat)
    requires p.when > now && j < DueCount(pending, now)
    ensures j < |pending| && Enqueued(pending, p)[j] == pending[j]
  {
    if j > 0 { InsertLaterAt(pending[1..], p, now, j - 1); }
  }

  /** The handler leaves the rest of what is due as it was. */
  lemma FireKeepsDue(s: State, input: Input, j: nat)
    requires IsDue(s.core) && j + 1 < DueCount(s.core.pending, s.core.stats.total)
    ensures var c := Fire(s, input).core;
            j + 1 < |s.core.pending| && j < |c.pending| && c.pending[j] == s.core.pending[j + 1]
  {
    var p := s.core.pending[0];
    match NextRequest(s, p.kind, input)
    case None => DueIsPrefix(s.core.pending, s.core.stats.total);
    case Some(delay) =>
      var now := s.core.stats.total;
      InsertLaterAt(s.core.pending[1..], Pending(now + delay, p.kind, |s.core.log.scheduled|), now, j);
  }

  lemma {:induction false} DueIsPrefix(pending: seq<Pending>, now: int)
    ensures DueCount(pending, now) <= |pending|
  {
    if pending != [] { DueIsPrefix(pending[1..], now); }
  }

  /** The loop fires exactly what is due when it starts, in the order of the
      queue, takes no time, and leaves nothing due. */
  lemma {:induction false} DrainFiresDue(s: State, inputs: seq<Input>)
    ensures var c, c' := s.core, Drained(s, inputs).core; var n := DueCount(c.pending, c.stats.total);
            && n <= |c.pending|
            && c'.log.fired == c.log.fired + c.pending[..n]
            && !IsDue(c')
            && c'.stats == c.stats
    decreases DueCount(s.core.pending, s.core.stats.total)
  {
    var c := s.core;
    DueIsPrefix(c.pending, c.stats.total);
    if IsDue(c) {
      var input := InputAt(inputs, |c.log.fired|);
      var c1 := Fire(s, input).core;
      FireShrinksDue(s, input);
      DrainFiresDue(Fire(s, input), inputs);
      var n := DueCount(c.pending, c.stats.total);
      forall j | 0 <= j < n - 1 ensures c1.pending[j] == c.pending[j + 1] { FireKeepsDue(s, input, j); }
      OneThenRest(c.log.fired, c.pending, c1.pending, n);
    }
  }

  lemma OneThenRest(fired: seq<Pending>, pending: seq<Pending>, rest: seq<Pending>, n: nat)
    requires 0 < n <= |pending| && n - 1 <= |rest|
    requires forall j | 0 <= j < n - 1 :: rest[j] == pending[j + 1]
    ensures (fired + [pending[0]]) + rest[..n - 1] == fired + pending[..n]
  {
  }

  // ---------- What the handlers leave behind ----------

  function Timers(ps: seq<Pending>): nat {
    if ps == [] then 0 else (if ps[0].kind.TimerInt? then 1 else 0) + Timers(ps[1..])
  }

  lemma {:induction false} TimersInserted(ps: seq<Pending>, p: Pending)
    ensures Timers(Enqueued(ps, p)) == Timers(ps) + Timers([p])
  {
    if ps == [] || p.when < ps[0].when {
      assert ([p] + ps)[1..] == ps;
    } else {
      TimersInserted(ps[1..], p);
    }
  }

  /** What is scheduled at `now` by a handler: a timer interrupt 100 ticks ahead,
      or 1 to 200 if at random, or the next poll of the keyboard. */
  predicate InReach(s: State, q: Pending) {
    var delay := q.when - s.core.stats.total;
    match q.kind
    case TimerInt => !s.timerOff && (if s.randomize then 1 <= delay <= 200 else delay == 100)
    case ConsoleReadInt => !s.consoleOff && delay == 100
    case _ => false
  }

  /** Disk and console output wake their client, console input if there is a key,
      the timer nobody. */
  function WokenBy(s: State, fired: seq<Pending>, inputs: seq<Input>, n: nat): nat {
    if fired == [] then 0
    else
      var input := InputAt(inputs, n);
      (if fired[0].kind in {DiskInt, ConsoleWriteInt}
          || (fired[0].kind.ConsoleReadInt? && !s.consoleOff && input.key) then input.wakes else 0)
      + WokenBy(s, fired[1..], inputs, n + 1)
  }

  lemma ScheduleLeaves(c: Core, fromNow: int, kind: Kind)
    requires fromNow > 0
    ensures var c' := Scheduled(c, fromNow, kind); var p := Pending(c.stats.total + fromNow, kind, |c.log.scheduled|);
            && c'.log.scheduled == c.log.scheduled + [p] && p in c'.pending
            && Timers(c'.pending) == Timers(c.pending) + if kind.TimerInt? then 1 else 0
  {
    var p := Pending(c.stats.total + fromNow, kind, |c.log.scheduled|);
    TimersInserted(c.pending, p);
    InsertMembers(c.pending, p);
    assert p in multiset(Enqueued(c.pending, p));
  }

  /** A handler schedules an interrupt of its own kind, in reach, exactly if it is
      that of the timer and the timer is on, or of the keyboard and finds no key. */
  lemma FireLeaves(s: State, input: Input)
    requires s.core.pending != []
    ensures var c, c', front := s.core, Fire(s, input).core, s.core.pending[0]; var n := |c.log.scheduled|;
            && c.log.scheduled <= c'.log.scheduled && |c'.log.scheduled| <= n + 1
            && (|c'.log.scheduled| > n <==>
                  || (front.kind.TimerInt? && !s.timerOff)
                  || (front.kind.ConsoleReadInt? && !s.consoleOff && !input.key))
            && (|c'.log.scheduled| > n ==>
                  var p := c'.log.scheduled[n]; p.kind == front.kind && InReach(s, p) && p in c'.pending)
            && (!s.timerOff ==> Timers(c'.pending) == Timers(c.pending))
  {
    var front := s.core.pending[0];
    match NextRequest(s, front.kind, input)
    case None =>
    case Some(delay) => ScheduleLeaves(Popped(s.core), delay, front.kind);
  }

  /** A timer interrupt asks for a yield unless the machine is idle. */
  lemma FireAsks(s: State, input: Input)
    requires s.core.pending != []
    ensures var s', front := Fire(s, input), s.core.pending[0];
            && (s'.yieldOnReturn <==> s.yieldOnReturn || (front.kind.TimerInt? && !s.mode.IdleMode?))
            && s' == s.(core := s'.core, yieldOnReturn := s'.yieldOnReturn, ready := s'.ready)
  {
  }

  predicate HasTimer(ps: seq<Pending>) {
    exists i | 0 <= i < |ps| :: ps[i].kind.TimerInt?
  }

  lemma HasTimerSplit(ps: seq<Pending>)
    requires ps != []
    ensures HasTimer(ps) <==> ps[0].kind.TimerInt? || HasTimer(ps[1..])
  {
    if HasTimer(ps[1..]) {
      var i :| 0 <= i < |ps[1..]| && ps[1..][i].kind.TimerInt?;
      assert ps[i + 1].kind.TimerInt?;
    }
    if HasTimer(ps) {
      var i :| 0 <= i < |ps| && ps[i].kind.TimerInt?;
      if i > 0 { assert ps[1..][i - 1].kind.TimerInt?; }
    }
  }

  /** What is due after the first handler is what was due behind it. */
  lemma FireLeavesDue(s: State, input: Input)
    requires IsDue(s.core)
    ensures var c, c' := s.core, Fire(s, input).core; var n := DueCount(c.pending, c.stats.total);
            && 0 < n <= |c.pending| && n - 1 == DueCount(c'.pending, c'.stats.total) <= |c'.pending|
            && c'.pending[..n - 1] == c.pending[..n][1..]
  {
    var c, c' := s.core, Fire(s, input).core;
    var n := DueCount(c.pending, c.stats.total);
    FireShrinksDue(s, input);
    DueIsPrefix(c.pending, c.stats.total);
    DueIsPrefix(c'.pending, c'.stats.total);
    forall j | 0 <= j < n - 1 ensures c'.pending[j] == c.pending[j + 1] { FireKeepsDue(s, input, j); }
  }

  /** The loop asks for a yield exactly if one was asked for before, or a timer
      interrupt is due and the machine is not idle. */
  lemma {:induction false} DrainAsks(s: State, inputs: seq<Input>)
    ensures var s' := Drained(s, inputs); var n := DueCount(s.core.pending, s.core.stats.total);
            && n <= |s.core.pending|
            && (s'.yieldOnReturn <==> s.yieldOnReturn || (!s.mode.IdleMode? && HasTimer(s.core.pending[..n])))
    decreases DueCount(s.core.pending, s.core.stats.total)
  {
    if IsDue(s.core) {
      var input := InputAt(inputs, |s.core.log.fired|);
      FireShrinksDue(s, input);
      FireAsks(s, input);
      FireLeavesDue(s, input);
      HasTimerSplit(s.core.pending[..DueCount(s.core.pending, s.core.stats.total)]);
      DrainAsks(Fire(s, input), inputs);
    }
  }

  /** The loop makes ready the clients of the interrupts that are due. */
  lemma {:induction false} DrainWakes(s: State, inputs: seq<Input>)
    ensures var s' := Drained(s, inputs); var n := DueCount(s.core.pending, s.core.stats.total);
            && n <= |s.core.pending|
            && s'.ready == s.ready + WokenBy(s, s.core.pending[..n], inputs, |s.core.log.fired|)
    decreases DueCount(s.core.pending, s.core.stats.total)
  {
    if IsDue(s.core) {
      var input := InputAt(inputs, |s.core.log.fired|);
      var s1 := Fire(s, input);
      FireShrinksDue(s, input);
      FireLeavesDue(s, input);
      DrainWakes(s1, inputs);
      SameWoken(s, s1, s1.core.pending[..DueCount(s1.core.pending, s1.core.stats.total)], inputs, |s1.core.log.fired|);
    }
  }

  /** What it schedules is in reach, and the timer, if it is on, is set as often as
      it has fired. */
  lemma {:induction false} DrainLeaves(s: State, inputs: seq<Input>)
    ensures var s' := Drained(s, inputs);
            && (!s.timerOff ==> Timers(s'.core.pending) == Timers(s.core.pending))
            && s.core.log.scheduled <= s'.core.log.scheduled
            && (forall i | |s.core.log.scheduled| <= i < |s'.core.log.scheduled| ::
                  InReach(s, s'.core.log.scheduled[i]))
            && s' == s.(core := s'.core, yieldOnReturn := s'.yieldOnReturn, ready := s'.ready)
    decreases DueCount(s.core.pending, s.core.stats.total)
  {
    if IsDue(s.core) {
      var input := InputAt(inputs, |s.core.log.fired|);
      FireShrinksDue(s, input);
      FireLeaves(s, input);
      FireAsks(s, input);
      DrainLeaves(Fire(s, input), inputs);
    }
  }

  lemma {:induction false} SameWoken(s: State, s': State, fired: seq<Pending>, inputs: seq<Input>, n: nat)
    requires s.consoleOff == s'.consoleOff
    ensures WokenBy(s, fired, inputs, n) == WokenBy(s', fired, inputs, n)
  {
    if fired != [] { SameWoken(s, s', fired[1..], inputs, n + 1); }
  }

  /** The interrupts handled between two states. */
  function FiredBetween(s: State, s': State): seq<Pending>
    requires s.core.log.fired <= s'.core.log.fired
  {
    s'.core.log.fired[|s.core.log.fired|..]
  }

  /** Time slicing: a tick ends with a switch exactly if one was asked for before,
      or the machine is not idle and a timer interrupt fired at this tick. */
  lemma AsksToYieldIff(s: State, inputs: seq<Input>)
    ensures var s' := Ticked(s, inputs);
            && s.core.log.fired <= s'.core.log.fired
            && (AsksToYield(s, inputs) <==>
                  s.yieldOnReturn || (!s.mode.IdleMode? && HasTimer(FiredBetween(s, s'))))
            && s'.ready == s.ready + WokenBy(s, FiredBetween(s, s'), inputs, |s.core.log.fired|)
            && !s'.yieldOnReturn
  {
    var s1 := s.(core := Advance(s.core, s.mode));
    DrainFiresDue(s1, inputs);
    DrainAsks(s1, inputs);
    DrainWakes(s1, inputs);
    var n := DueCount(s1.core.pending, s1.core.stats.total);
    assert FiredBetween(s, Ticked(s, inputs)) == s1.core.pending[..n];
    SameWoken(s, s1, s1.core.pending[..n], inputs, |s.core.log.fired|);
  }

  /** Idling never asks for one, and ends in the kernel unless it ends the machine. */
  lemma IdleAsksNothing(s: State, inputs: seq<Input>)
    ensures Idled(s, inputs).0.yieldOnReturn == s.yieldOnReturn
    ensures Idled(s, inputs).1 ==> Idled(s, inputs).0.mode == SystemMode
  {
    var s1 := s.(mode := IdleMode);
    DrainAsks(s1, inputs);
    if s.core.pending != [] { DrainAsks(s1.(core := Advanced(s.core)), inputs); }
  }

  /** `CheckIfDue` reports exactly whether a handler was called. */
  lemma CalledIff(s: State, advanceClock: bool, inputs: seq<Input>)
    ensures var (s', called) := Checked(s, advanceClock, inputs);
            called <==> |s'.core.log.fired| > |s.core.log.fired|
  {
    DrainFiresDue(s, inputs);
    if s.core.pending != [] { DrainFiresDue(s.(core := Advanced(s.core)), inputs); }
  }

  /** The random timer can have any delay from 1 to 200. */
  lemma AnyDelay(s: State, d: nat) returns (input: Input)
    requires s.randomize && !s.timerOff && 1 <= d <= 200
    ensures NextRequest(s, TimerInt, input) == Some(d)
  {
    input := Input(d - 1, false, 0);
  }

  // ---------- Every run ----------

  datatype Event =
    | Request(fromNow: int, kind: Kind)   // a thread sets a device to work
    | Tick                                // interrupts are enabled, or a user instruction is done
    | IdleStep                            // nothing is ready: Idle
    | Prepare                             // PrepareToEnd
    | Enter(user: bool)                   // to user mode, or back to the kernel
    | SetReady(n: nat)                    // threads run, and make others ready

  predicate Enabled(e: Event) {
    e.Request? ==> e.fromNow > 0
  }

  function Next(s: State, e: Event, inputs: seq<Input>): State
    requires Enabled(e)
  {
    match e
    case Request(fromNow, kind) => s.(core := Scheduled(s.core, fromNow, kind))
    case Tick => Ticked(s, inputs)
    case IdleStep => Idled(s, inputs).0
    case Prepare => Ending(s)
    case Enter(user) => s.(mode := if user then UserMode else SystemMode)
    case SetReady(n) => s.(ready := n)
  }

  const BOOT: Core := Core(Stats(0, 0, 0, 0), [], History([], [], []))

  lemma StepKeeps(s: State, e: Event, inputs: seq<Input>)
    requires Inv(s.core) && Enabled(e)
    ensures Inv(Next(s, e, inputs).core)
  {
    match e
    case Request(fromNow, kind) => ScheduleKeeps(s.core, fromNow, kind);
    case Tick =>
      assert Timeline(Advance(s.core, s.mode)) == Timeline(s.core);
      CheckKeeps(s.(core := Advance(s.core, s.mode)), false, inputs);
    case IdleStep => CheckKeeps(s.(mode := IdleMode), true, inputs);
    case _ =>
  }

  function After(s: State, es: seq<Event>, inputs: seq<Input>): State
    requires forall i | 0 <= i < |es| :: Enabled(es[i])
    decreases |es|
  {
    if es == [] then s else After(Next(s, es[0], inputs), es[1..], inputs)
  }

  lemma {:induction false} RunKeeps(s: State, es: seq<Event>, inputs: seq<Input>)
    requires Inv(s.core) && forall i | 0 <= i < |es| :: Enabled(es[i])
    ensures Inv(After(s, es, inputs).core) && WellRun(After(s, es, inputs).core)
    decreases |es|
  {
    if es != [] {
      StepKeeps(s, es[0], inputs);
      RunKeeps(Next(s, es[0], inputs), es[1..], inputs);
    } else {
      InvMeansWellRun(s.core);
    }
  }

  /** Interrupts have fired in order of time, ties in the order they were
      scheduled, never early and never a tick late; each one scheduled is
      pending or has fired, once; nothing due is left behind; and the clock is
      the sum of its parts. */
  ghost predicate WellRun(c: Core) {
    && Balanced(c)
    && Ordered(c.log.fired) && OnTime(c)
    && AllAfter(c.pending, c.stats.total)
    && multiset(c.log.fired + c.pending) == multiset(c.log.scheduled)
  }

  lemma BootInv()
    ensures Inv(BOOT)
  {
    assert Timeline(BOOT) == [];
  }

  lemma EveryRunIsWellRun(s: State, es: seq<Event>, inputs: seq<Input>)
    requires s.core == BOOT && forall i | 0 <= i < |es| :: Enabled(es[i])
    ensures WellRun(After(s, es, inputs).core)
  {
    assert Inv(s.core) by { BootInv(); }
    RunKeeps(s, es, inputs);
  }

  lemma InvMeansWellRun(c: Core)
    requires Inv(c)
    ensures WellRun(c)
  {
    forall i, j | 0 <= i < j < |c.log.fired| ensures Before(c.log.fired[i], c.log.fired[j]) {
      assert Before(Timeline(c)[i], Timeline(c)[j]);
    }
  }

  lemma LogGrows(s: State, e: Event, inputs: seq<Input>)
    requires Enabled(e)
    ensures s.core.log.scheduled <= Next(s, e, inputs).core.log.scheduled
  {
    match e
    case Tick => DrainLeaves(s.(core := Advance(s.core, s.mode)), inputs);
    case IdleStep =>
      DrainLeaves(s.(mode := IdleMode), inputs);
      if s.core.pending != [] { DrainLeaves(s.(mode := IdleMode, core := Advanced(s.core)), inputs); }
    case _ =>
  }

  lemma {:induction false} LogOnlyGrows(s: State, es: seq<Event>, inputs: seq<Input>)
    requires forall i | 0 <= i < |es| :: Enabled(es[i])
    ensures s.core.log.scheduled <= After(s, es, inputs).core.log.scheduled
    decreases |es|
  {
    if es != [] {
      LogGrows(s, es[0], inputs);
      LogOnlyGrows(Next(s, es[0], inputs), es[1..], inputs);
    }
  }

  lemma PendingUntilDue(c: Core, p: Pending)
    requires WellRun(c) && p in c.log.scheduled
    ensures if c.stats.total < p.when then p in c.pending else p in c.log.fired
  {
    assert p in multiset(c.log.scheduled);
    assert p in c.log.fired + c.pending;
  }

  lemma LoggedFires(s: State, p: Pending, es: seq<Event>, inputs: seq<Input>)
    requires Inv(s.core) && p in s.core.log.scheduled && forall i | 0 <= i < |es| :: Enabled(es[i])
    ensures var c := After(s, es, inputs).core;
            if c.stats.total < p.when then p in c.pending else p in c.log.fired
  {
    RunKeeps(s, es, inputs);
    LogOnlyGrows(s, es, inputs);
    PendingUntilDue(After(s, es, inputs).core, p);
  }

  lemma RequestLogged(s: State, e: Event, inputs: seq<Input>, p: Pending)
    requires e.Request? && Enabled(e) && p == Pending(s.core.stats.total + e.fromNow, e.kind, |s.core.log.scheduled|)
    ensures p in Next(s, e, inputs).core.log.scheduled
  {
  }

  /** No request is lost: whatever comes after it, the interrupt is pending until
      its time, and has fired once the clock has got there. */
  lemma EveryRequestFires(s: State, fromNow: int, kind: Kind, es: seq<Event>, inputs: seq<Input>)
    requires Inv(s.core) && fromNow > 0 && forall i | 0 <= i < |es| :: Enabled(es[i])
    ensures var c := After(Next(s, Request(fromNow, kind), inputs), es, inputs).core;
            var p := Pending(s.core.stats.total + fromNow, kind, |s.core.log.scheduled|);
            if c.stats.total < p.when then p in c.pending else p in c.log.fired
  {
    var p := Pending(s.core.stats.total + fromNow, kind, |s.core.log.scheduled|);
    var s1 := Next(s, Request(fromNow, kind), inputs);
    assert Inv(s1.core) by { StepKeeps(s, Request(fromNow, kind), inputs); }
    RequestLogged(s, Request(fromNow, kind), inputs, p);
    LoggedFires(s1, p, es, inputs);
  }

  /** Steps that leave the timer alone. */
  predicate KeepsTimer(e: Event) {
    !e.Prepare? && (e.Request? ==> !e.kind.TimerInt?)
  }

  lemma TimerStep(s: State, e: Event, inputs: seq<Input>)
    requires Enabled(e) && KeepsTimer(e) && !s.timerOff
    ensures var s' := Next(s, e, inputs); !s'.timerOff && Timers(s'.core.pending) == Timers(s.core.pending)
  {
    match e
    case Request(fromNow, kind) =>
      TimersInserted(s.core.pending, Pending(s.core.stats.total + fromNow, kind, |s.core.log.scheduled|));
    case Tick => DrainLeaves(s.(core := Advance(s.core, s.mode)), inputs);
    case IdleStep =>
      DrainLeaves(s.(mode := IdleMode), inputs);
      if s.core.pending != [] { DrainLeaves(s.(mode := IdleMode, core := Advanced(s.core)), inputs); }
    case _ =>
  }

  /** Set once, the timer goes on for ever: until PrepareToEnd exactly one timer
      interrupt is pending. */
  lemma {:induction false} TimerGoesOn(s: State, es: seq<Event>, inputs: seq<Input>)
    requires !s.timerOff && Timers(s.core.pending) == 1
    requires forall i | 0 <= i < |es| :: Enabled(es[i]) && KeepsTimer(es[i])
    ensures Timers(After(s, es, inputs).core.pending) == 1
    decreases |es|
  {
    if es != [] {
      TimerStep(s, es[0], inputs);
      TimerGoesOn(Next(s, es[0], inputs), es[1..], inputs);
    }
  }

  /** How many ticks of a run are taken in system mode, and how many in another. */
  function TicksIn(s: State, es: seq<Event>, inputs: seq<Input>, system: bool): nat
    requires forall i | 0 <= i < |es| :: Enabled(es[i])
    decreases |es|
  {
    if es == [] then 0
    else (if es[0].Tick? && s.mode.SystemMode? == system then 1 else 0)
         + TicksIn(Next(s, es[0], inputs), es[1..], inputs, system)
  }

  lemma TickCounts(s: State, e: Event, inputs: seq<Input>)
    requires Enabled(e)
    ensures var st, st' := s.core.stats, Next(s, e, inputs).core.stats;
            && st'.system == st.system + (if e.Tick? && s.mode.SystemMode? then 10 else 0)
            && st'.user == st.user + (if e.Tick? && !s.mode.SystemMode? then 1 else 0)
            && (e.Enter? ==> (Next(s, e, inputs).mode.SystemMode? <==> !e.user))
  {
    DrainFiresDue(s.(core := Advance(s.core, s.mode)), inputs);
    DrainFiresDue(s.(mode := IdleMode), inputs);
    if s.core.pending != [] { DrainFiresDue(s.(mode := IdleMode, core := Advanced(s.core)), inputs); }
  }

  /** Ten system ticks for each tick in system mode, one user tick for each of the
      others. */
  lemma {:induction false} TicksCounted(s: State, es: seq<Event>, inputs: seq<Input>)
    requires forall i | 0 <= i < |es| :: Enabled(es[i])
    ensures var st, st' := s.core.stats, After(s, es, inputs).core.stats;
            && st'.system == st.system + 10 * TicksIn(s, es, inputs, true)
            && st'.user == st.user + TicksIn(s, es, inputs, false)
    decreases |es|
  {
    if es != [] {
      TickCounts(s, es[0], inputs);
      TicksCounted(Next(s, es[0], inputs), es[1..], inputs);
    }
  }

  // ---------- The idle loop of a sleeping thread ----------

  predicate DevicesOff(s: State) {
    s.timerOff && s.consoleOff
  }

  /** With the timer and the console off, handlers schedule nothing. */
  lemma {:induction false} QuietDrain(s: State, inputs: seq<Input>)
    requires DevicesOff(s)
    ensures var s' := Drained(s, inputs); var n := DueCount(s.core.pending, s.core.stats.total);
            && DevicesOff(s') && n <= |s.core.pending|
            && s'.core.pending == s.core.pending[n..]
            && s'.core.log.scheduled == s.core.log.scheduled
    decreases DueCount(s.core.pending, s.core.stats.total)
  {
    if IsDue(s.core) {
      var input := InputAt(inputs, |s.core.log.fired|);
      FireShrinksDue(s, input);
      QuietDrain(Fire(s, input), inputs);
    }
  }

  /** One turn of the loop in `Sleep` after `PrepareToEnd`: at least one pending
      interrupt is used up, and none is added. */
  lemma QuietIdle(s: State, inputs: seq<Input>)
    requires DevicesOff(s)
    ensures var (s', goesOn) := Idled(s, inputs);
            && (goesOn <==> s.core.pending != [])
            && (!goesOn ==> s' == s.(mode := IdleMode))
            && (goesOn ==> DevicesOff(s') && |s'.core.pending| < |s.core.pending|)
            && s'.core.log.scheduled == s.core.log.scheduled
  {
    if s.core.pending != [] {
      var s1 := s.(mode := IdleMode);
      var s2 := if IsDue(s.core) then s1 else s1.(core := Advanced(s.core));
      QuietDrain(s2, inputs);
    }
  }

  /** The loop in `Sleep`: the state in which it ends, and whether the machine
      was halted. */
  function Waited(s: State, inputs: seq<Input>): (State, bool)
    decreases |s.core.pending|
  {
    if s.ready > 0 then (s, false)
    else
      QuietIdle(Ending(s), inputs);
      var (s1, goesOn) := Idled(Ending(s), inputs);
      if goesOn then Waited(s1, inputs) else (s1, true)
  }

  /** The loop ends with a thread to run, or with a halt when no thread is ready
      and no interrupt is left; on the way nothing new is scheduled. */
  lemma {:induction false} IdleLoopEnds(s: State, inputs: seq<Input>)
    ensures var (s', halted) := Waited(s, inputs);
            && (halted <==> s'.ready == 0)
            && (halted ==> s'.core.pending == [])
            && s'.core.log.scheduled == s.core.log.scheduled
    decreases |s.core.pending|
  {
    if s.ready == 0 {
      QuietIdle(Ending(s), inputs);
      var (s1, goesOn) := Idled(Ending(s), inputs);
      if goesOn { IdleLoopEnds(s1, inputs); }
    }
  }

  // ---------- The code ----------

  datatype Level = IntOff | IntOn

  class Interrupt {
    var level: Level
    var pending: seq<Pending>
    var inHandler: bool
    var yieldOnReturn: bool
    var status: Mode
    var stats: Stats
    var readyThreads: nat
    var randomize: bool
    var timerDisabled: bool
    var consoleDisabled: bool
    var issued: nat
    var handled: nat
    ghost var log: History

    ghost predicate Valid()
      reads this
    {
      issued == |log.scheduled| && handled == |log.fired|
    }

    ghost function Abs(): State
      reads this
    {
      State(Core(stats, pending, log), status, yieldOnReturn, readyThreads,
            randomize, timerDisabled, consoleDisabled)
    }

    constructor (randomize: bool)
      ensures Valid() && level == IntOff && !inHandler
      ensures Abs() == State(BOOT, SystemMode, false, 0, randomize, false, false)
    {
      level, inHandler, yieldOnReturn, status := IntOff, false, false, SystemMode;
      stats := Stats(0, 0, 0, 0);
      readyThreads, issued, handled := 0, 0, 0;
      this.randomize, timerDisabled, consoleDisabled := randomize, false, false;
      pending, log := [], History([], [], []);
    }

    method Schedule(fromNow: int, kind: Kind)
      requires Valid() && fromNow > 0
      modifies this
      ensures Valid() && Abs() == old(Abs()).(core := Scheduled(old(Abs()).core, fromNow, kind))
      ensures level == old(level) && inHandler == old(inHandler)
    {
      var toOccur := Pending(stats.total + fromNow, kind, issued);
      pending := Enqueued(pending, toOccur);
      issued := issued + 1;
      log := log.(scheduled := log.scheduled + [toOccur]);
    }

    /** The handlers of the devices. */
    method CallBack(kind: Kind, input: Input)
      requires Valid() && inHandler
      modifies this
      ensures Valid() && level == old(level) && inHandler
      ensures Abs() == HandlerEffect(old(Abs()), kind, input)
      ensures yieldOnReturn <==> old(yieldOnReturn) || (kind.TimerInt? && status != IdleMode)
    {
      match kind
      case TimerInt =>
        if status != IdleMode { yieldOnReturn := true; }
        if !timerDisabled {
          var delay := if randomize then 1 + input.random % (TIMER_TICKS * 2) else TIMER_TICKS;
          Schedule(delay, TimerInt);
        }
      case ConsoleReadInt =>
        if !consoleDisabled {
          if !input.key {
            Schedule(CONSOLE_TIME, ConsoleReadInt);
          } else {
            readyThreads := readyThreads + input.wakes;
          }
        }
      case _ => readyThreads := readyThreads + input.wakes;
    }

    method CheckIfDue(advanceClock: bool, inputs: seq<Input>) returns (called: bool)
      requires Valid() && level == IntOff && !inHandler
      modifies this
      ensures Valid() && level == IntOff && !inHandler
      ensures (Abs(), called) == Checked(old(Abs()), advanceClock, inputs)
    {
      if pending == [] { return false; }
      var next := pending[0];
      if next.when > stats.total {
        if !advanceClock { return false; }
        stats := stats.(idle := stats.idle + (next.when - stats.total), total := next.when);
      }
      inHandler := true;
      FireDue(inputs);
      inHandler := false;
      return true;
    }

    method FireDue(inputs: seq<Input>)
      requires Valid() && inHandler && IsDue(Abs().core)
      modifies this
      ensures Valid() && level == old(level) && inHandler
      ensures Abs() == Drained(old(Abs()), inputs)
    {
      ghost var s := Abs();
      while true
        invariant Valid() && level == old(level) && inHandler && IsDue(Abs().core)
        invariant Drained(Abs(), inputs) == Drained(s, inputs)
        decreases DueCount(pending, stats.total)
      {
        FireShrinksDue(Abs(), InputAt(inputs, handled));
        FireFront(InputAt(inputs, handled));
        if pending == [] || pending[0].when > stats.total { break; }
      }
    }

    method FireFront(input: Input)
      requires Valid() && inHandler && pending != []
      modifies this
      ensures Valid() && level == old(level) && inHandler
      ensures Abs() == Fire(old(Abs()), input)
    {
      var next := pending[0];
      pending := pending[1..];
      log := log.(fired := log.fired + [next], firedAt := log.firedAt + [stats.total]);
      handled := handled + 1;
      CallBack(next.kind, input);
    }

    /** Up to the switch, which the result asks for. */
    method OneTick(inputs: seq<Input>) returns (switch: bool)
      requires Valid() && level == IntOn && !inHandler
      modifies this
      ensures Valid() && level == IntOn && !inHandler
      ensures Abs() == Ticked(old(Abs()), inputs)
      ensures switch <==> AsksToYield(old(Abs()), inputs)
    {
      if status == SystemMode {
        stats := stats.(total := stats.total + SYSTEM_TICK, system := stats.system + SYSTEM_TICK);
      } else {
        stats := stats.(total := stats.total + USER_TICK, user := stats.user + USER_TICK);
      }
      level := IntOff;
      var _ := CheckIfDue(false, inputs);
      level := IntOn;
      switch := yieldOnReturn;
      yieldOnReturn := false;
    }

    method SetLevel(now: Level, inputs: seq<Input>) returns (was: Level, switch: bool)
      requires Valid() && (now == IntOff || !inHandler)
      modifies this
      ensures Valid() && level == now && inHandler == old(inHandler) && was == old(level)
      ensures Abs() == if now == IntOn && was == IntOff then Ticked(old(Abs()), inputs) else old(Abs())
      ensures switch <==> now == IntOn && was == IntOff && AsksToYield(old(Abs()), inputs)
    {
      was, switch := level, false;
      level := now;
      if now == IntOn && was == IntOff {
        switch := OneTick(inputs);
      }
    }

    /** False stands for the halt. */
    method Idle(inputs: seq<Input>) returns (goesOn: bool)
      requires Valid() && level == IntOff && !inHandler
      modifies this
      ensures Valid() && level == IntOff && !inHandler
      ensures (Abs(), goesOn) == Idled(old(Abs()), inputs)
    {
      status := IdleMode;
      goesOn := CheckIfDue(true, inputs);
      if goesOn { status := SystemMode; }
    }

    /** The loop in `Thread::Sleep`. */
    method WaitForThread(inputs: seq<Input>) returns (halted: bool)
      requires Valid() && level == IntOff && !inHandler
      modifies this
      ensures Valid() && level == IntOff && !inHandler
      ensures (Abs(), halted) == Waited(old(Abs()), inputs)
    {
      ghost var s := Abs();
      while readyThreads == 0
        invariant Valid() && level == IntOff && !inHandler
        invariant Waited(Abs(), inputs) == Waited(s, inputs)
        decreases |pending|
      {
        timerDisabled, consoleDisabled := true, true;
        QuietIdle(Abs(), inputs);
        var goesOn := Idle(inputs);
        if !goesOn { return true; }
      }
      return false;
    }
  }
}
