/** How long a disk request takes (machine/disk.cc): seek, rotation and transfer,
    with a track buffer that is filled from the moment the head arrives on a
    track. */
module DiskTiming {
  import opened SectorDisk

  const ROTATION_TIME := 500
  const SEEK_TIME := 500
  const SECTORS_PER_TRACK := 32

  datatype State = State(active: bool, lastSector: SectorNumber, bufferInit: int)

  function Abs(x: int): nat {
    if x < 0 then -x else x
  }

  /** The time to move the head to the track of `newSector`. */
  function SeekTime(lastSector: SectorNumber, newSector: SectorNumber): nat {
    Abs(newSector / SECTORS_PER_TRACK - lastSector / SECTORS_PER_TRACK) * SEEK_TIME
  }

  /** From `time` to the next sector boundary. */
  function ToBoundary(time: nat): (r: nat)
    ensures r < ROTATION_TIME && (time + r) % ROTATION_TIME == 0
  {
    var over := time % ROTATION_TIME;
    if over > 0 then ROTATION_TIME - over else 0
  }

  function ModuloDiff(to: nat, from: nat): nat {
    ((to % SECTORS_PER_TRACK - from % SECTORS_PER_TRACK) + SECTORS_PER_TRACK) % SECTORS_PER_TRACK
  }

  /** The first sector boundary after the seek. */
  function TimeAfter(s: State, now: nat, newSector: SectorNumber): nat {
    var seek := SeekTime(s.lastSector, newSector);
    now + seek + ToBoundary(now + seek)
  }

  /** The clock and the start of the buffer are never negative, and when a
      request comes the buffer was started in the past. */
  predicate Ready(s: State, now: nat) {
    !s.active && 0 <= s.bufferInit <= now && s.bufferInit % ROTATION_TIME == 0
  }

  predicate BufferHit(s: State, now: nat, newSector: SectorNumber, writing: bool)
    requires Ready(s, now)
  {
    && !writing
    && SeekTime(s.lastSector, newSector) == 0
    && (TimeAfter(s, now, newSector) - s.bufferInit) / ROTATION_TIME
       > ModuloDiff(newSector, s.bufferInit / ROTATION_TIME)
  }

  function Latency(s: State, now: nat, newSector: SectorNumber, writing: bool): nat
    requires Ready(s, now)
  {
    if BufferHit(s, now, newSector, writing) then ROTATION_TIME
    else
      var timeAfter := TimeAfter(s, now, newSector);
      timeAfter - now + ModuloDiff(newSector, timeAfter / ROTATION_TIME) * ROTATION_TIME + ROTATION_TIME
  }

  /** The state after `ReadRequest` or `WriteRequest`. */
  function Requested(s: State, now: nat, newSector: SectorNumber): State {
    State(true, newSector,
          if SeekTime(s.lastSector, newSector) != 0 then TimeAfter(s, now, newSector) else s.bufferInit)
  }

  // ---------- What the numbers mean ----------

  /** The platter turns past the head one sector every 500 ticks: at `time` the
      first byte of the sector is under the head. */
  predicate BeginsUnderHead(time: nat, sector: SectorNumber) {
    time % ROTATION_TIME == 0 && (time / ROTATION_TIME) % SECTORS_PER_TRACK == sector % SECTORS_PER_TRACK
  }

  /** `ModuloDiff` sectors after a boundary is the first time the sector begins
      under the head. */
  lemma FirstPass(boundary: nat, sector: SectorNumber)
    requires boundary % ROTATION_TIME == 0
    ensures BeginsUnderHead(boundary + ModuloDiff(sector, boundary / ROTATION_TIME) * ROTATION_TIME, sector)
    ensures forall t: nat | boundary <= t < boundary + ModuloDiff(sector, boundary / ROTATION_TIME) * ROTATION_TIME
              :: !BeginsUnderHead(t, sector)
  {
    var n := boundary / ROTATION_TIME;
    var d := ModuloDiff(sector, n);
    assert boundary == n * ROTATION_TIME;
    TurnsTo(sector, n);
    assert (boundary + d * ROTATION_TIME) / ROTATION_TIME == n + d;
    forall t: nat | boundary <= t < boundary + d * ROTATION_TIME ensures !BeginsUnderHead(t, sector) {
      if t % ROTATION_TIME == 0 {
        var k := t / ROTATION_TIME;
        assert t == k * ROTATION_TIME && n <= k < n + d;
      }
    }
  }

  /** Counting sectors: the first one at or after the n-th that has the offset of
      the target. */
  lemma TurnsTo(sector: nat, n: nat)
    ensures (n + ModuloDiff(sector, n)) % SECTORS_PER_TRACK == sector % SECTORS_PER_TRACK
    ensures forall k: nat | n <= k < n + ModuloDiff(sector, n) :: k % SECTORS_PER_TRACK != sector % SECTORS_PER_TRACK
  {
    var d := ModuloDiff(sector, n);
    OffsetAfter(n, d);
    forall k: nat | n <= k < n + d ensures k % SECTORS_PER_TRACK != sector % SECTORS_PER_TRACK {
      OffsetAfter(n, k - n);
    }
  }

  lemma OffsetAfter(n: nat, i: nat)
    requires i < SECTORS_PER_TRACK
    ensures var r := n % SECTORS_PER_TRACK + i;
            (n + i) % SECTORS_PER_TRACK == if r < SECTORS_PER_TRACK then r else r - SECTORS_PER_TRACK
  {
    var q, r := n / SECTORS_PER_TRACK, n % SECTORS_PER_TRACK + i;
    assert n + i == SECTORS_PER_TRACK * q + r;
    assert (n + i) / SECTORS_PER_TRACK == if r < SECTORS_PER_TRACK then q else q + 1;
  }

  /** Without a hit, the request ends one sector time after the first moment, at
      or after the end of the seek, at which the sector begins under the head. */
  lemma EndsAfterFirstPass(s: State, now: nat, newSector: SectorNumber, writing: bool)
    requires Ready(s, now) && !BufferHit(s, now, newSector, writing)
    ensures var begin := now + Latency(s, now, newSector, writing) - ROTATION_TIME;
            var seeked := now + SeekTime(s.lastSector, newSector);
            && begin >= seeked && BeginsUnderHead(begin, newSector)
            && (forall t: nat | seeked <= t < begin :: !BeginsUnderHead(t, newSector))
  {
    var timeAfter := TimeAfter(s, now, newSector);
    var seeked := now + SeekTime(s.lastSector, newSector);
    FirstPass(timeAfter, newSector);
    forall t: nat | seeked <= t < timeAfter ensures !BeginsUnderHead(t, newSector) {
      NoBoundaryBefore(seeked, t);
    }
  }

  lemma NoBoundaryBefore(time: nat, t: nat)
    requires time <= t < time + ToBoundary(time)
    ensures t % ROTATION_TIME != 0
  {
  }

  /** The sector went past the head, from its first byte to its last, between
      `from` and `to`. */
  ghost predicate PassedBetween(sector: SectorNumber, from: nat, to: nat) {
    exists t: nat :: from <= t && t + ROTATION_TIME <= to && BeginsUnderHead(t, sector)
  }

  lemma PassedIff(sector: SectorNumber, from: nat, to: nat)
    requires from % ROTATION_TIME == 0 && from <= to
    ensures PassedBetween(sector, from, to) <==> (to - from) / ROTATION_TIME > ModuloDiff(sector, from / ROTATION_TIME)
  {
    FirstPass(from, sector);
    var t0 := from + ModuloDiff(sector, from / ROTATION_TIME) * ROTATION_TIME;
    if (to - from) / ROTATION_TIME > ModuloDiff(sector, from / ROTATION_TIME) {
      assert t0 + ROTATION_TIME <= to && BeginsUnderHead(t0, sector);
    }
    if PassedBetween(sector, from, to) {
      var t: nat :| from <= t && t + ROTATION_TIME <= to && BeginsUnderHead(t, sector);
      assert t >= t0;
    }
  }

  /** A read is served from the buffer exactly when the head is on the track
      already and the whole sector has passed since buffering began, counting to
      the first sector boundary at or after the request. */
  lemma HitIffPassed(s: State, now: nat, newSector: SectorNumber)
    requires Ready(s, now)
    ensures BufferHit(s, now, newSector, false) <==>
              SeekTime(s.lastSector, newSector) == 0
              && PassedBetween(newSector, s.bufferInit, TimeAfter(s, now, newSector))
  {
    PassedIff(newSector, s.bufferInit, TimeAfter(s, now, newSector));
  }

  /** So a hit can be reported while the sector is still passing: at time 501
      sector 1 is, and is reported as buffered. */
  lemma HitWhilePassing()
    ensures var s := State(false, 0, 0);
            Ready(s, 501) && BufferHit(s, 501, 1, false) && !PassedBetween(1, 0, 501)
  {
    var s := State(false, 0, 0);
    assert TimeAfter(s, 501, 1) == 1000;
    assert ModuloDiff(1, 0) == 1;
    PassedIff(1, 0, 501);
  }

  /** That happens exactly when no seek is needed, the request comes between two
      boundaries, and it is for the one sector then under the head, on its first
      pass since buffering began. */
  lemma HitAtRequestIff(s: State, now: nat, newSector: SectorNumber)
    requires Ready(s, now)
    ensures BufferHit(s, now, newSector, false) && !PassedBetween(newSector, s.bufferInit, now) <==>
              && SeekTime(s.lastSector, newSector) == 0
              && now % ROTATION_TIME != 0
              && (now - s.bufferInit) / ROTATION_TIME == ModuloDiff(newSector, s.bufferInit / ROTATION_TIME)
  {
    PassedIff(newSector, s.bufferInit, now);
    BoundarySteps(now, s.bufferInit);
  }

  lemma BoundarySteps(now: nat, from: nat)
    requires from % ROTATION_TIME == 0 && from <= now
    ensures (now + ToBoundary(now) - from) / ROTATION_TIME
         == (now - from) / ROTATION_TIME + if now % ROTATION_TIME != 0 then 1 else 0
  {
  }

  /** In either case the sector has passed by the time the request ends. */
  lemma PassedByTheEnd(s: State, now: nat, newSector: SectorNumber, writing: bool)
    requires Ready(s, now)
    ensures PassedBetween(newSector, s.bufferInit, now + Latency(s, now, newSector, writing))
  {
    var end := now + Latency(s, now, newSector, writing);
    if BufferHit(s, now, newSector, writing) {
      PassedIff(newSector, s.bufferInit, TimeAfter(s, now, newSector));
      var t: nat :| s.bufferInit <= t && t + ROTATION_TIME <= TimeAfter(s, now, newSector)
                    && BeginsUnderHead(t, newSector);
      assert t + ROTATION_TIME <= end;
    } else {
      EndsAfterFirstPass(s, now, newSector, writing);
      assert end - ROTATION_TIME >= s.bufferInit;
      assert BeginsUnderHead(end - ROTATION_TIME, newSector);
    }
  }

  lemma LatencyBounds(s: State, now: nat, newSector: SectorNumber, writing: bool)
    requires Ready(s, now)
    ensures 500 <= Latency(s, now, newSector, writing) <= 31999
  {
  }

  /** Both bounds are met: by the sector that is about to begin, and by the one
      farthest away when the seek ends just too late. */
  lemma LatencyBoundsMet(s: State, now: nat)
    requires Ready(s, now) && s.lastSector == 0 && now % 16000 == 1
    ensures Latency(s, now, 1023, true) == 31999
    ensures now - 1 >= s.bufferInit ==> Latency(s, now - 1, 0, true) == ROTATION_TIME
  {
    var q := now / 16000;
    assert SeekTime(s.lastSector, 1023) == 15500;
    BoundaryAt(now + 15500, SECTORS_PER_TRACK * q + 31, 1);
    TrackStart(q + 1);
    if now - 1 >= s.bufferInit {
      assert SeekTime(s.lastSector, 0) == 0;
      BoundaryAt(now - 1, SECTORS_PER_TRACK * q, 0);
      TrackStart(q);
    }
  }

  lemma BoundaryAt(time: nat, n: nat, over: nat)
    requires time == ROTATION_TIME * n + over && over <= 1
    ensures time + ToBoundary(time) == ROTATION_TIME * (n + over)
  {
    assert time % ROTATION_TIME == over;
  }

  lemma TrackStart(q: nat)
    ensures ROTATION_TIME * (SECTORS_PER_TRACK * q) / ROTATION_TIME == SECTORS_PER_TRACK * q
    ensures SECTORS_PER_TRACK * q % SECTORS_PER_TRACK == 0
  {
  }

  // ---------- Where the head is ----------

  /** A request takes the head from where it rests, at `leaves`, to the track of
      its sector, at `arrives`. */
  datatype Move = Move(sector: SectorNumber, leaves: nat, arrives: nat)

  /** The track on which the head rests after the moves; it starts on track 0. */
  function RestingTrack(moves: seq<Move>): nat {
    if moves == [] then 0 else moves[|moves| - 1].sector / SECTORS_PER_TRACK
  }

  /** The next move: the head crosses one track every 500 ticks. */
  function Moved(moves: seq<Move>, now: nat, sector: SectorNumber): seq<Move> {
    moves + [Move(sector, now, now + Abs(RestingTrack(moves) - sector / SECTORS_PER_TRACK) * SEEK_TIME)]
  }

  /** At `time` the head rests on the track. */
  predicate OnTrack(moves: seq<Move>, track: nat, time: nat) {
    if moves == [] then track == 0
    else
      var last := moves[|moves| - 1];
      if time < last.leaves then OnTrack(moves[..|moves| - 1], track, time)
      else time >= last.arrives && track == last.sector / SECTORS_PER_TRACK
  }

  /** The head stays on the track from `since` on, and `since` is the first sector
      boundary of which that is true. */
  ghost predicate StaysFrom(moves: seq<Move>, track: nat, since: nat) {
    && since % ROTATION_TIME == 0
    && (forall t: nat | since <= t :: OnTrack(moves, track, t))
    && (forall t: nat | t < since && t % ROTATION_TIME == 0 :: LeftBefore(moves, track, t, since))
  }

  ghost predicate LeftBefore(moves: seq<Move>, track: nat, from: nat, to: nat) {
    exists u: nat :: from <= u < to && !OnTrack(moves, track, u)
  }

  /** Before the last move it was as it had been. */
  lemma SameBefore(moves: seq<Move>, now: nat, sector: SectorNumber, track: nat, time: nat)
    requires time < now
    ensures OnTrack(Moved(moves, now, sector), track, time) == OnTrack(moves, track, time)
  {
    var moves' := Moved(moves, now, sector);
    assert moves'[..|moves'| - 1] == moves;
  }

  /** A request for the same track leaves the head where it is. */
  lemma StaysOn(moves: seq<Move>, now: nat, sector: SectorNumber, track: nat, since: nat)
    requires StaysFrom(moves, track, since) && since <= now
    requires track == RestingTrack(moves) == sector / SECTORS_PER_TRACK
    ensures StaysFrom(Moved(moves, now, sector), track, since)
  {
    var moves' := Moved(moves, now, sector);
    forall t: nat | since <= t ensures OnTrack(moves', track, t) {
      if t < now { SameBefore(moves, now, sector, track, t); }
    }
    forall t: nat | t < since && t % ROTATION_TIME == 0 ensures LeftBefore(moves', track, t, since) {
      assert LeftBefore(moves, track, t, since);
      var u: nat :| t <= u < since && !OnTrack(moves, track, u);
      SameBefore(moves, now, sector, track, u);
    }
  }

  /** One for another track brings it there, and the first boundary after that is
      where its stay begins. */
  lemma Arrives(moves: seq<Move>, now: nat, sector: SectorNumber, track: nat)
    requires track == sector / SECTORS_PER_TRACK && track != RestingTrack(moves)
    ensures var arrives := now + Abs(RestingTrack(moves) - track) * SEEK_TIME;
            StaysFrom(Moved(moves, now, sector), track, arrives + ToBoundary(arrives))
  {
    var moves' := Moved(moves, now, sector);
    var arrives := now + Abs(RestingTrack(moves) - track) * SEEK_TIME;
    var since := arrives + ToBoundary(arrives);
    forall t: nat | t < since && t % ROTATION_TIME == 0 ensures LeftBefore(moves', track, t, since) {
      if arrives <= t { NoBoundaryBefore(arrives, t); }
      assert !OnTrack(moves', track, if t < now then now else t);
    }
  }

  // ---------- Every run ----------

  /** The disk with the clock, the time for which its interrupt is set, and all
      moves of the head so far. */
  datatype Run = Run(disk: State, now: nat, due: int, moves: seq<Move>)

  datatype Event =
    | Submit(sector: SectorNumber, writing: bool)
    | Pass(ticks: nat)      // time goes by
    | Complete              // the interrupt, which is never early

  predicate Enabled(r: Run, e: Event) {
    match e
    case Submit(_, _) => !r.disk.active
    case Pass(_) => true
    case Complete => r.disk.active && r.now >= r.due
  }

  /** The last sector is the one last requested, and buffering began at the first
      sector boundary at which the head had come to stay on its track. */
  ghost predicate Inv(r: Run) {
    && 0 <= r.disk.bufferInit
    && (if r.disk.active then r.disk.bufferInit <= r.due else r.disk.bufferInit <= r.now)
    && r.disk.lastSector == (if r.moves == [] then 0 else r.moves[|r.moves| - 1].sector)
    && StaysFrom(r.moves, r.disk.lastSector / SECTORS_PER_TRACK, r.disk.bufferInit)
  }

  function Next(r: Run, e: Event): Run
    requires Inv(r) && Enabled(r, e)
  {
    match e
    case Submit(sector, writing) =>
      Run(Requested(r.disk, r.now, sector), r.now, r.now + Latency(r.disk, r.now, sector, writing),
          Moved(r.moves, r.now, sector))
    case Pass(ticks) => r.(now := r.now + ticks)
    case Complete => r.(disk := r.disk.(active := false))
  }

  lemma StepKeeps(r: Run, e: Event)
    requires Inv(r) && Enabled(r, e)
    ensures Inv(Next(r, e))
  {
    if e.Submit? {
      LatencyBounds(r.disk, r.now, e.sector, e.writing);
      var track := e.sector / SECTORS_PER_TRACK;
      if track == RestingTrack(r.moves) {
        StaysOn(r.moves, r.now, e.sector, track, r.disk.bufferInit);
      } else {
        Arrives(r.moves, r.now, e.sector, track);
      }
    }
  }

  const START: Run := Run(State(false, 0, 0), 0, 0, [])

  ghost predicate Feasible(r: Run, es: seq<Event>)
    requires Inv(r)
    decreases |es|
  {
    es != [] ==> Enabled(r, es[0]) && (StepKeeps(r, es[0]); Feasible(Next(r, es[0]), es[1..]))
  }

  ghost function After(r: Run, es: seq<Event>): (r': Run)
    requires Inv(r) && Feasible(r, es)
    ensures Inv(r')
    decreases |es|
  {
    if es == [] then r else StepKeeps(r, es[0]); After(Next(r, es[0]), es[1..])
  }

  /** From the start of the machine on, the buffer starts on a sector boundary
      and, whenever the disk is idle, not in the future: every request finds the
      disk ready.  The boundary is the first from which on the head has stayed on
      the track of the sector last requested. */
  lemma EveryRequestFindsReady(es: seq<Event>, e: Event)
    requires Feasible(START, es) && e.Submit? && Enabled(After(START, es), e)
    ensures var r := After(START, es);
            && Ready(r.disk, r.now)
            && r.disk.lastSector == (if r.moves == [] then 0 else r.moves[|r.moves| - 1].sector)
            && StaysFrom(r.moves, r.disk.lastSector / SECTORS_PER_TRACK, r.disk.bufferInit)
  {
  }

  /** The sector goes past the head from `t` on, and the head has stayed on its
      track from then to `now`. */
  ghost predicate PassesFrom(moves: seq<Move>, sector: SectorNumber, t: nat, now: nat) {
    && BeginsUnderHead(t, sector) && t <= now
    && (forall u: nat | t <= u <= now :: OnTrack(moves, sector / SECTORS_PER_TRACK, u))
  }

  /** In every run a request is served from the buffer exactly if it is a read and
      its sector has gone past the head, up to the first boundary at or after the
      request, during the present stay of the head on its track. */
  lemma HitIffPassedOnTrack(es: seq<Event>, sector: SectorNumber, writing: bool)
    requires Feasible(START, es) && !After(START, es).disk.active
    ensures var r := After(START, es);
            && Ready(r.disk, r.now)
            && (BufferHit(r.disk, r.now, sector, writing) <==>
                  && !writing
                  && exists t: nat :: PassesFrom(r.moves, sector, t, r.now)
                                      && t + ROTATION_TIME <= r.now + ToBoundary(r.now))
            && (BufferHit(r.disk, r.now, sector, writing) ==> Latency(r.disk, r.now, sector, writing) == 500)
  {
    var r := After(START, es);
    var since, track := r.disk.bufferInit, sector / SECTORS_PER_TRACK;
    HitIffPassed(r.disk, r.now, sector);
    assert OnTrack(r.moves, r.disk.lastSector / SECTORS_PER_TRACK, r.now);
    if BufferHit(r.disk, r.now, sector, false) {
      var t: nat :| since <= t && t + ROTATION_TIME <= TimeAfter(r.disk, r.now, sector) && BeginsUnderHead(t, sector);
      assert PassesFrom(r.moves, sector, t, r.now);
    }
    if t: nat :| PassesFrom(r.moves, sector, t, r.now) && t + ROTATION_TIME <= r.now + ToBoundary(r.now) {
      assert OnTrack(r.moves, track, r.now);
      OneTrack(r.moves, track, r.disk.lastSector / SECTORS_PER_TRACK, r.now);
      assert t < since ==> LeftBefore(r.moves, track, t, since);
      assert PassedBetween(sector, since, TimeAfter(r.disk, r.now, sector));
    }
  }

  /** A request that is under way can always be completed, at the time for which
      its interrupt is set, and the disk is then ready for the next. */
  lemma EveryRequestEnds(es: seq<Event>)
    requires Feasible(START, es) && After(START, es).disk.active && After(START, es).now <= After(START, es).due
    ensures var r := After(START, es); var wait := Pass(r.due - r.now);
            && Enabled(r, wait) && Inv(Next(r, wait)) && Next(r, wait).now == r.due
            && Enabled(Next(r, wait), Complete) && Ready(Next(Next(r, wait), Complete).disk, r.due)
  {
    var r := After(START, es);
    StepKeeps(r, Pass(r.due - r.now));
  }

  /** The head rests on one track at a time. */
  lemma {:induction false} OneTrack(moves: seq<Move>, track: nat, other: nat, time: nat)
    requires OnTrack(moves, track, time) && OnTrack(moves, other, time)
    ensures track == other
  {
    if moves != [] && time < moves[|moves| - 1].leaves { OneTrack(moves[..|moves| - 1], track, other, time); }
  }

  // ---------- The code ----------

  class Disk {
    var active: bool
    var lastSector: SectorNumber
    var bufferInit: int

    ghost function Value(): State
      reads this
    {
      State(active, lastSector, bufferInit)
    }

    constructor ()
      ensures Value() == State(false, 0, 0)
    {
      active, lastSector, bufferInit := false, 0, 0;
    }

    method TimeToSeek(totalTicks: nat, newSector: SectorNumber) returns (seek: int, rotation: int)
      ensures seek == SeekTime(lastSector, newSector)
      ensures rotation == TimeAfter(Value(), totalTicks, newSector) - totalTicks - seek
    {
      var newTrack, oldTrack := newSector / SECTORS_PER_TRACK, lastSector / SECTORS_PER_TRACK;
      seek := Abs(newTrack - oldTrack) * SEEK_TIME;
      var over := (totalTicks + seek) % ROTATION_TIME;
      rotation := 0;
      if over > 0 { rotation := ROTATION_TIME - over; }
    }

    method ComputeLatency(totalTicks: nat, newSector: SectorNumber, writing: bool) returns (ticks: int)
      requires Ready(Value(), totalTicks)
      ensures ticks == Latency(Value(), totalTicks, newSector, writing)
    {
      var seek, rotation := TimeToSeek(totalTicks, newSector);
      var timeAfter := totalTicks + seek + rotation;
      if !writing && seek == 0
         && (timeAfter - bufferInit) / ROTATION_TIME > ModuloDiff(newSector, bufferInit / ROTATION_TIME)
      {
        return ROTATION_TIME;
      }
      rotation := rotation + ModuloDiff(newSector, timeAfter / ROTATION_TIME) * ROTATION_TIME;
      return seek + rotation + ROTATION_TIME;
    }

    method UpdateLast(totalTicks: nat, newSector: SectorNumber)
      modifies this
      ensures Value() == Requested(old(Value()), totalTicks, newSector).(active := old(active))
    {
      var seek, rotate := TimeToSeek(totalTicks, newSector);
      if seek != 0 { bufferInit := totalTicks + seek + rotate; }
      lastSector := newSector;
    }

    /** `ReadRequest` and `WriteRequest`; the result is what is scheduled. */
    method Request(totalTicks: nat, sectorNumber: SectorNumber, writing: bool) returns (ticks: int)
      requires Ready(Value(), totalTicks)
      modifies this
      ensures Value() == Requested(old(Value()), totalTicks, sectorNumber)
      ensures ticks == Latency(old(Value()), totalTicks, sectorNumber, writing) && ticks > 0
    {
      ticks := ComputeLatency(totalTicks, sectorNumber, writing);
      LatencyBounds(Value(), totalTicks, sectorNumber, writing);
      active := true;
      UpdateLast(totalTicks, sectorNumber);
    }

    method CallBack()
      modifies this
      ensures Value() == old(Value()).(active := false)
    {
      active := false;
    }
  }
}
