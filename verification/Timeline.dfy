/**
  The states of a timed connection as values, and what sending, waiting for bytes and waiting for a frame
  keep from one state to a later one.
 */
module Timeline {
  import opened Wire
  import opened Framing
  import opened FrameCodec
  import opened FrameQueue
  import opened Connection
  import opened Deadlines
  import opened Sleeping

  // ----- States -----

  /** A receive overwrote bytes that `reader` had not parsed yet; `later` was still to come. */
  datatype Gap = Gap(reader: Reader, overwritten: Bytes, later: Bytes)

  /** What was to come before the receive, and behind it. */
  ghost function Overlooked(cfg: Config, g: Gap): Incoming
  {
    if ValidReader(cfg, g.reader) then IncomingOf(cfg, g.reader, g.overwritten + g.later) else Incoming([], None)
  }

  ghost function Following(cfg: Config, g: Gap): Incoming
  {
    if ValidReader(cfg, g.reader) then IncomingOf(cfg, g.reader, g.later) else Incoming([], None)
  }

  /** The state of a timed connection, as values. */
  datatype View = Snapshot(
    now: nat, ticks: seq<Tick>, polls: seq<Poll>, receiveBlocks: seq<bool>, attempts: seq<Attempt>,
    nextRecv: UInt64, nextSend: UInt64, readAt: nat, missed: bool, sleeps: seq<Sleep>, diversions: nat, gaps: seq<Gap>,
    reader: Reader, buffered: Bytes, script: seq<Event>, broken: bool, queue: seq<Frame>, ahead: Incoming)

  /** What is still to come; nothing, once a protocol error has been returned. */
  function End(v: View, st: Status): Incoming
  {
    if v.broken then Incoming([], Some(st)) else v.ahead
  }

  // ----- Frames that go to the queue -----

  /** What was taken off the frames to come went to the end of the queue. */
  predicate Drained(start: Incoming, now: Incoming, q: seq<Frame>, q': seq<Frame>)
  {
    IsSuffix(start.frames, now.frames) && now.error == start.error && q' == q + Taken(start.frames, now.frames)
  }

  lemma DrainedNothing(start: Incoming, q: seq<Frame>)
    ensures Drained(start, start, q, q)
  {
    QueuedNothing(start.frames, q);
  }

  lemma DrainedAll(start: Incoming, st: Status, q: seq<Frame>)
    requires start.error == Some(st)
    ensures Drained(start, Incoming([], Some(st)), q, q + start.frames)
  {
    assert Taken(start.frames, []) == start.frames;
  }

  lemma DrainedTaken(start: Incoming, now: Incoming, q: seq<Frame>)
    requires IsSuffix(start.frames, now.frames) && now.error == start.error
    ensures Drained(start, now, q, q + Taken(start.frames, now.frames))
  {
  }

  lemma DrainedMore(start: Incoming, mid: Incoming, now: Incoming, q: seq<Frame>, q1: seq<Frame>, q2: seq<Frame>)
    requires Drained(start, mid, q, q1) && Drained(mid, now, q1, q2)
    ensures Drained(start, now, q, q2)
  {
    TakenInOrder(start.frames, mid.frames, now.frames);
  }

  lemma DrainedMeans(start: Incoming, now: Incoming, q: seq<Frame>, q': seq<Frame>)
    requires Drained(start, now, q, q')
    ensures IsSuffix(start.frames, now.frames) && now.error == start.error && q' == q + Taken(start.frames, now.frames)
  {
  }

  // ----- Accounting for what is overwritten -----

  /**
    From `start` to `now`, taking `taken` off the front; at each gap, what was still to come is replaced by
    what comes without the overwritten bytes, and nothing else is lost.
   */
  ghost predicate Accounted(cfg: Config, start: Incoming, gaps: seq<Gap>, now: Incoming, taken: seq<Frame>)
    decreases |gaps|
  {
    if gaps == [] then IsSuffix(start.frames, now.frames) && now.error == start.error && taken == Taken(start.frames, now.frames)
    else
      var g := gaps[|gaps| - 1];
      var rest := Following(cfg, g);
      && IsSuffix(rest.frames, now.frames) && now.error == rest.error
      && var t := Taken(rest.frames, now.frames);
         && |t| <= |taken| && taken[|taken| - |t|..] == t
         && Accounted(cfg, start, gaps[..|gaps| - 1], Overlooked(cfg, g), taken[..|taken| - |t|])
  }

  lemma AccountedNothing(cfg: Config, start: Incoming)
    ensures Accounted(cfg, start, [], start, [])
  {
    assert start.frames[0..] == start.frames && Taken(start.frames, start.frames) == [];
  }

  lemma AccountedMore(cfg: Config, start: Incoming, gaps: seq<Gap>, mid: Incoming, taken: seq<Frame>, now: Incoming)
    requires Accounted(cfg, start, gaps, mid, taken) && IsSuffix(mid.frames, now.frames) && now.error == mid.error
    ensures Accounted(cfg, start, gaps, now, taken + Taken(mid.frames, now.frames))
  {
    hide Following, Overlooked;
    var more := Taken(mid.frames, now.frames);
    if gaps == [] {
      TakenInOrder(start.frames, mid.frames, now.frames);
    } else {
      var rest := Following(cfg, gaps[|gaps| - 1]);
      TakenInOrder(rest.frames, mid.frames, now.frames);
      var t := Taken(rest.frames, mid.frames);
      assert (taken + more)[|taken| - |t|..] == t + more;
      assert (taken + more)[..|taken| - |t|] == taken[..|taken| - |t|];
    }
  }

  lemma AccountedGap(cfg: Config, start: Incoming, gaps: seq<Gap>, g: Gap, taken: seq<Frame>)
    requires Accounted(cfg, start, gaps, Overlooked(cfg, g), taken)
    ensures Accounted(cfg, start, gaps + [g], Following(cfg, g), taken)
  {
    hide Following, Overlooked;
    var all, rest := gaps + [g], Following(cfg, g);
    assert all[..|all| - 1] == gaps;
    assert rest.frames[0..] == rest.frames && Taken(rest.frames, rest.frames) == [];
    assert taken[..|taken|] == taken;
  }

  lemma AccountedNoGap(cfg: Config, start: Incoming, now: Incoming, taken: seq<Frame>)
    requires Accounted(cfg, start, [], now, taken)
    ensures IsSuffix(start.frames, now.frames) && now.error == start.error && taken == Taken(start.frames, now.frames)
  {
  }

  /** What came behind the last gap. */
  lemma AccountedLast(cfg: Config, start: Incoming, gaps: seq<Gap>, now: Incoming, taken: seq<Frame>) returns (t: seq<Frame>)
    requires gaps != [] && Accounted(cfg, start, gaps, now, taken)
    ensures var g := gaps[|gaps| - 1];
            && IsSuffix(Following(cfg, g).frames, now.frames) && now.error == Following(cfg, g).error
            && t == Taken(Following(cfg, g).frames, now.frames)
            && |t| <= |taken| && taken == taken[..|taken| - |t|] + t
            && Accounted(cfg, start, gaps[..|gaps| - 1], Overlooked(cfg, g), taken[..|taken| - |t|])
  {
    hide Following, Overlooked;
    return Taken(Following(cfg, gaps[|gaps| - 1]).frames, now.frames);
  }

  lemma {:induction false} AccountedThen(
      cfg: Config, start: Incoming, gaps: seq<Gap>, mid: Incoming, taken: seq<Frame>, later: seq<Gap>, now: Incoming, more: seq<Frame>)
    requires Accounted(cfg, start, gaps, mid, taken) && Accounted(cfg, mid, later, now, more)
    ensures Accounted(cfg, start, gaps + later, now, taken + more)
    decreases |later|
  {
    hide Following, Overlooked, Accounted, IsSuffix, Taken;
    if later == [] {
      AccountedNoGap(cfg, mid, now, more);
      AccountedMore(cfg, start, gaps, mid, taken, now);
      assert gaps + later == gaps;
    } else {
      var g, front := later[|later| - 1], later[..|later| - 1];
      var t := AccountedLast(cfg, mid, later, now, more);
      var m := more[..|more| - |t|];
      AccountedThen(cfg, start, gaps, mid, taken, front, Overlooked(cfg, g), m);
      AccountedGap(cfg, start, gaps + front, g, taken + m);
      AccountedMore(cfg, start, (gaps + front) + [g], Following(cfg, g), taken + m, now);
      assert (gaps + front) + [g] == gaps + later;
      assert (taken + m) + t == taken + more;
    }
  }

  /** If complete frames at the front of the stream are overwritten, all frames but those are still to come. */
  lemma OverwrittenFramesAreLost(cfg: Config, fs: seq<Outgoing>, later: Bytes)
    requires ValidConfig(cfg) && AllSendable(cfg, fs)
    ensures var kept, overwritten := IncomingOf(cfg, IDLE_READER, StreamOf(cfg, fs) + later), IncomingOf(cfg, IDLE_READER, later);
            kept.frames == Arrivals(cfg, fs) + overwritten.frames && kept.error == overwritten.error
  {
    StreamArrives(cfg, fs);
    FeedConcat(cfg, IDLE_READER, StreamOf(cfg, fs), later);
  }

  // ----- Sending -----

  /**
    What sending keeps: frames taken off the stream go to the end of the queue, nothing is overwritten,
    every poll for sending ends by `deadline` and by the receive deadline, and unless the send went on to
    receive, nothing is touched on the receiving side. Without heartbeats it never does.
   */
  predicate KeptBySend(a: View, b: View, heartbeat: int, deadline: UInt64, st: Status)
  {
    && b.now >= a.now && |b.receiveBlocks| <= |a.receiveBlocks| && |b.script| <= |a.script| && |b.attempts| <= |a.attempts|
    && b.nextSend == a.nextSend && b.gaps == a.gaps && b.diversions >= a.diversions
    && (b.missed ==> a.missed || st == TimerFailure)
    && OnlySending(a.sleeps, b.sleeps, deadline, heartbeat > 0 || Near(deadline, a.now))
    && Drained(a.ahead, End(b, st), a.queue, b.queue)
    && (heartbeat <= 0 ==> b.diversions == a.diversions)
    && (b.diversions == a.diversions ==> Untouched(a, b))
  }

  /** The receiving side has not changed. */
  predicate Untouched(a: View, b: View)
  {
    && b.receiveBlocks == a.receiveBlocks && b.nextRecv == a.nextRecv && b.readAt == a.readAt && b.missed == a.missed
    && b.reader == a.reader && b.buffered == a.buffered && b.script == a.script && b.broken == a.broken
    && b.queue == a.queue && b.ahead == a.ahead
  }

  lemma KeptNothing(a: View, heartbeat: int, deadline: UInt64)
    requires !a.broken
    ensures KeptBySend(a, a, heartbeat, deadline, OK)
  {
    SendingNothing(a.sleeps, deadline, heartbeat > 0 || Near(deadline, a.now));
    DrainedNothing(a.ahead, a.queue);
  }

  lemma KeptWithStatus(a: View, b: View, heartbeat: int, deadline: UInt64, st: Status)
    requires KeptBySend(a, b, heartbeat, deadline, OK) && !b.broken
    ensures KeptBySend(a, b, heartbeat, deadline, st)
  {
  }

  lemma KeptTwice(a: View, b: View, d: View, heartbeat: int, deadline: UInt64, st: Status)
    requires KeptBySend(a, b, heartbeat, deadline, OK) && !b.broken && KeptBySend(b, d, heartbeat, deadline, st)
    ensures KeptBySend(a, d, heartbeat, deadline, st)
  {
    hide OnlySending, Drained, Near;
    NearStays(deadline, a.now, b.now);
    SendingStill(a.sleeps, b.sleeps, d.sleeps, deadline, deadline,
                 heartbeat > 0 || Near(deadline, a.now), heartbeat > 0 || Near(deadline, b.now));
    DrainedMore(a.ahead, b.ahead, End(d, st), a.queue, b.queue, d.queue);
  }

  lemma KeptMeans(a: View, b: View, heartbeat: int, deadline: UInt64, st: Status)
    requires KeptBySend(a, b, heartbeat, deadline, st)
    ensures b.now >= a.now && |b.attempts| <= |a.attempts| && |b.receiveBlocks| <= |a.receiveBlocks| && |b.script| <= |a.script|
    ensures b.nextSend == a.nextSend && (b.diversions == a.diversions ==> Untouched(a, b)) && b.diversions >= a.diversions
  {
  }

  lemma KeptClock(a: View, b: View, heartbeat: int)
    requires !a.broken && b == a.(now := b.now, ticks := b.ticks) && b.now >= a.now
    ensures KeptBySend(a, b, heartbeat, INFINITE, OK)
  {
    SentIsKept(a, b, heartbeat, INFINITE, INFINITE) by {
      SendingNothing(a.sleeps, INFINITE, Near(INFINITE, a.now));
    }
  }

  lemma SentIsKept(a: View, b: View, heartbeat: int, deadline: UInt64, next: UInt64)
    requires !a.broken && b == a.(now := b.now, ticks := b.ticks, polls := b.polls, sleeps := b.sleeps, attempts := b.attempts)
    requires b.now >= a.now && |b.attempts| <= |a.attempts| && next <= deadline
    requires OnlySending(a.sleeps, b.sleeps, next, Near(next, a.now))
    requires heartbeat > 0 || Near(deadline, a.now) ==> Near(next, a.now)
    ensures KeptBySend(a, b, heartbeat, deadline, OK)
  {
    hide OnlySending, Drained, Near;
    var near := heartbeat > 0 || Near(deadline, a.now);
    SendingNothing(a.sleeps, deadline, near);
    SendingStill(a.sleeps, a.sleeps, b.sleeps, next, deadline, near, Near(next, a.now));
    DrainedNothing(a.ahead, a.queue);
  }

  lemma DrainingIsKept(a: View, b: View, heartbeat: int, deadline: UInt64, st: Status)
    requires heartbeat > 0 && !a.broken && b.now >= a.now && |b.receiveBlocks| <= |a.receiveBlocks| && |b.script| <= |a.script|
    requires b.attempts == a.attempts && b.nextSend == a.nextSend && b.gaps == a.gaps && b.diversions == a.diversions + 1
    requires b.missed ==> a.missed || st == TimerFailure
    requires Slept(a.sleeps, b.sleeps, INFINITE, Draining, a.nextRecv, a.nextSend, true)
    requires Drained(a.ahead, End(b, st), a.queue, b.queue)
    ensures KeptBySend(a, b, heartbeat, deadline, st)
  {
    hide OnlySending, Drained, Slept, Near;
    var near := heartbeat > 0 || Near(deadline, a.now);
    SendingNothing(a.sleeps, deadline, near);
    DrainingStill(a.sleeps, a.sleeps, b.sleeps, deadline, near, a.nextRecv, a.nextSend, true);
  }

  // ----- A heartbeat that stalls -----

  /** The next send blocks until the receive deadline has passed; meanwhile a chunk has arrived, and then all is accepted. */
  predicate Stalled(v: View, heartbeat: int, size: nat)
  {
    && heartbeat > 0 && v.ticks == [] && v.receiveBlocks == [] && v.buffered == [] && !v.broken
    && |v.attempts| >= 2 && v.attempts[0].WouldBlock? && v.attempts[1].Accepts? && v.attempts[1].count >= size
    && v.polls != [] && v.polls[0].Quiet? && Latest(v.now, v.nextRecv) + v.polls[0].after <= CLOCK_MAX
    && v.script != [] && v.script[0].Chunk?
  }

  /** A send has polled once, until the receive deadline, and has put the first chunk to come into the socket buffer. */
  predicate TookChunk(a: View, b: View)
  {
    && a.now <= CLOCK_MAX && a.script != [] && a.script[0].Chunk?
    && b.diversions == a.diversions + 1 && !b.broken && b.reader == a.reader && b.queue == a.queue
    && b.buffered == a.script[0].bytes && b.script == a.script[1..] && b.gaps == a.gaps
    && b.ticks == [] && b.receiveBlocks == [] && b.now <= CLOCK_MAX
    && b.sleeps == a.sleeps + [Sleep(Sending, a.now, MsUntil(a.nextRecv, a.now), a.nextRecv, a.nextSend)]
  }

  /** A send that polls until the receive deadline. */
  predicate SendStalls(a: View, b: View)
  {
    && a.now <= CLOCK_MAX
    && b == a.(now := b.now, ticks := [], polls := b.polls, sleeps := b.sleeps, attempts := b.attempts) && b.now <= CLOCK_MAX
    && b.sleeps == a.sleeps + [Sleep(Sending, a.now, MsUntil(a.nextRecv, a.now), a.nextRecv, a.nextSend)]
  }

  predicate ChunkIsThere(v: View)
  {
    v.receiveBlocks == [] && v.ticks == [] && v.now <= CLOCK_MAX && v.buffered == [] && v.script != [] && v.script[0].Chunk?
  }

  /** A chunk that is there is received at once. */
  predicate ChunkArrives(b: View, d: View)
    requires b.script != [] && b.script[0].Chunk?
  {
    && d.diversions == b.diversions + 1 && d.gaps == b.gaps && !d.broken
    && d.receiveBlocks == [] && d.ticks == [] && d.now == b.now && d.sleeps == b.sleeps && d.reader == b.reader && d.queue == b.queue
    && d.buffered == b.script[0].bytes && d.script == b.script[1..]
  }

  lemma StalledMeans(a: View, heartbeat: int, size: nat)
    requires Stalled(a, heartbeat, size)
    ensures heartbeat > 0 && a.ticks == [] && a.polls != [] && a.polls[0].Quiet? && a.now <= CLOCK_MAX && a.attempts != [] && a.attempts[0].WouldBlock?
    ensures a.receiveBlocks == [] && a.buffered == [] && a.script != [] && a.script[0].Chunk?
    ensures Latest(a.now, a.nextRecv) + a.polls[0].after <= CLOCK_MAX
  {
  }

  lemma StalledThenFlows(a: View, b: View, heartbeat: int, size: nat)
    requires Stalled(a, heartbeat, size) && a.attempts != [] && b.attempts == a.attempts[1..]
    ensures b.attempts != [] && b.attempts[0].Accepts? && b.attempts[0].count >= size
  {
  }

  lemma StalledChunk(a: View, b: View, heartbeat: int, size: nat)
    requires Stalled(a, heartbeat, size) && SendStalls(a, b)
    ensures ChunkIsThere(b) && b.script != [] && b.script[0].Chunk?
  {
  }

  lemma StallTakes(a: View, b: View, d: View, heartbeat: int, size: nat)
    requires Stalled(a, heartbeat, size) && SendStalls(a, b)
    requires b.script != [] && b.script[0].Chunk? && ChunkArrives(b, d)
    ensures TookChunk(a, d)
  {
  }

  lemma TookMeans(a: View, b: View)
    requires TookChunk(a, b)
    ensures b.ticks == [] && b.receiveBlocks == [] && b.now <= CLOCK_MAX && b.diversions == a.diversions + 1
    ensures a.script != [] && a.script[0].Chunk? && b.buffered == a.script[0].bytes && b.script == a.script[1..]
  {
  }

  lemma TookClock(a: View, b: View)
    requires TookChunk(a, b)
    ensures b.ticks == [] && b.now <= CLOCK_MAX
  {
  }

  lemma TookStill(a: View, b: View, d: View)
    requires TookChunk(a, b) && d == b.(polls := d.polls, attempts := d.attempts)
    ensures TookChunk(a, d)
  {
  }

  /** Moving the send deadline is no business of the rest. */
  lemma Postponed(a: View, b: View, d: View, heartbeat: int, deadline: UInt64, st: Status)
    requires KeptBySend(a, b, heartbeat, deadline, OK) && !b.broken && d.now >= b.now
    requires d == b.(now := d.now, ticks := d.ticks, nextSend := d.nextSend)
    requires TookChunk(a, b) && b.ticks == [] && b.now <= CLOCK_MAX ==> d.ticks == [] && d.now == b.now
    ensures KeptBySend(a, d.(nextSend := a.nextSend), heartbeat, deadline, st)
    ensures TookChunk(a, b) ==> TookChunk(a, d)
  {
    hide OnlySending, Drained, Near;
  }

  // ----- Waiting for bytes -----

  /** One receive of `wait_frame_inner`. */
  ghost predicate ReceivedBy(cfg: Config, b: View, d: View, deadline: UInt64, st: Status)
  {
    && d.now >= b.now && |d.script| <= |b.script| && d.nextSend == b.nextSend && d.diversions == b.diversions
    && d.reader == b.reader && d.queue == b.queue && !d.broken && (d.missed ==> b.missed || st == TimerFailure)
    && Slept(b.sleeps, d.sleeps, deadline, Reading, b.nextRecv, b.nextSend, Near(deadline, b.now))
    && (d.gaps == b.gaps ==> d.ahead == b.ahead)
    && (d.gaps != b.gaps ==>
          && b.buffered != [] && |d.script| < |b.script|
          && var g := Gap(b.reader, b.buffered, ScriptBytes(b.script));
             d.gaps == b.gaps + [g] && Overlooked(cfg, g) == b.ahead && Following(cfg, g) == d.ahead)
  }

  lemma ReceivedMeans(cfg: Config, b: View, d: View, deadline: UInt64, st: Status)
    requires ReceivedBy(cfg, b, d, deadline, st)
    ensures d.diversions == b.diversions && |d.script| <= |b.script| && d.now >= b.now && d.nextSend == b.nextSend
  {
    hide Slept, Overlooked, Following;
  }

  /**
    What waiting for more bytes keeps: every poll is in time, frames taken off the stream are queued, and
    the gaps account for everything overwritten. Without a heartbeat to send there are only polls for
    reading, and without a receive in a send nothing is taken or lost.
   */
  ghost predicate KeptByWait(cfg: Config, a: View, b: View, heartbeat: int, timeoutDeadline: UInt64, st: Status)
  {
    && b.now >= a.now && |b.script| <= |a.script| && b.diversions >= a.diversions
    && (b.missed ==> a.missed || st == TimerFailure)
    && (heartbeat > 0 || Near(timeoutDeadline, a.now) ==> InTime(a.sleeps, b.sleeps, timeoutDeadline))
    && a.queue <= b.queue && a.gaps <= b.gaps && a.sleeps <= b.sleeps
    && Accounted(cfg, a.ahead, b.gaps[|a.gaps|..], End(b, st), b.queue[|a.queue|..])
    && |b.gaps| + |b.script| <= |a.gaps| + |a.script|
    && (heartbeat <= 0 || b.now <= a.nextSend ==> OnlyReading(a.sleeps, b.sleeps) && b.diversions == a.diversions && b.nextSend == a.nextSend)
    && (b.diversions == a.diversions && a.buffered == [] ==> !b.broken && b.queue == a.queue && b.gaps == a.gaps && b.ahead == a.ahead)
  }

  lemma WaitNothing(cfg: Config, a: View, heartbeat: int, timeoutDeadline: UInt64)
    requires !a.broken
    ensures KeptByWait(cfg, a, a, heartbeat, timeoutDeadline, OK)
  {
    AccountedNothing(cfg, a.ahead);
    assert a.gaps[|a.gaps|..] == [] && a.queue[|a.queue|..] == [];
  }

  lemma WaitMeans(cfg: Config, a: View, b: View, heartbeat: int, timeoutDeadline: UInt64, st: Status)
    requires KeptByWait(cfg, a, b, heartbeat, timeoutDeadline, st)
    ensures b.now >= a.now && b.diversions >= a.diversions && a.gaps <= b.gaps && a.sleeps <= b.sleeps
    ensures |b.gaps| + |b.script| <= |a.gaps| + |a.script|
    ensures b.diversions == a.diversions && a.buffered == [] ==> !b.broken && b.ahead == a.ahead
  {
    hide Accounted, InTime, OnlyReading;
  }

  lemma WaitWithStatus(cfg: Config, a: View, b: View, heartbeat: int, timeoutDeadline: UInt64, st: Status)
    requires KeptByWait(cfg, a, b, heartbeat, timeoutDeadline, Timeout) && !b.broken
    ensures KeptByWait(cfg, a, b, heartbeat, timeoutDeadline, st)
  {
    hide Accounted, InTime, OnlyReading;
  }

  lemma SendInWait(cfg: Config, a: View, b: View, d: View, heartbeat: int, timeoutDeadline: UInt64, st: Status)
    requires KeptByWait(cfg, a, b, heartbeat, timeoutDeadline, OK) && !b.broken
    requires KeptBySend(b, d.(nextSend := b.nextSend), heartbeat, INFINITE, st)
    requires heartbeat <= 0 || d.now <= b.nextSend ==> d == b.(now := d.now, ticks := d.ticks)
    ensures KeptByWait(cfg, a, d, heartbeat, timeoutDeadline, st)
  {
    hide Accounted, InTime, OnlyReading, OnlySending, Near, IsSuffix, Taken;
    NeverIsNear(b.now);
    SendingInTime(a.sleeps, b.sleeps, d.sleeps, timeoutDeadline, heartbeat > 0 || Near(timeoutDeadline, a.now));
    DrainedMeans(b.ahead, End(d, st), b.queue, d.queue);
    AccountedMore(cfg, a.ahead, b.gaps[|a.gaps|..], b.ahead, b.queue[|a.queue|..], End(d, st));
    assert d.queue[|a.queue|..] == b.queue[|a.queue|..] + Taken(b.ahead.frames, End(d, st).frames);
  }

  lemma ReceiveInWait(
      cfg: Config, a: View, b: View, d: View, heartbeat: int, timeoutDeadline: UInt64, deadline: UInt64, st: Status)
    requires KeptByWait(cfg, a, b, heartbeat, timeoutDeadline, OK) && !b.broken && ReceivedBy(cfg, b, d, deadline, st)
    requires deadline <= timeoutDeadline && deadline <= b.nextRecv && deadline <= b.nextSend
    requires heartbeat > 0 || Near(timeoutDeadline, a.now) ==> Near(deadline, b.now)
    requires b.diversions == a.diversions && a.buffered == [] ==> b.buffered == []
    ensures KeptByWait(cfg, a, d, heartbeat, timeoutDeadline, st)
  {
    hide Accounted, InTime, OnlyReading, Slept, Near, Overlooked, Following;
    ReadingInTime(a.sleeps, b.sleeps, d.sleeps, deadline, timeoutDeadline, b.nextRecv, b.nextSend, Near(deadline, b.now));
    if d.gaps != b.gaps {
      var g := d.gaps[|b.gaps|];
      AccountedGap(cfg, a.ahead, b.gaps[|a.gaps|..], g, b.queue[|a.queue|..]);
      assert d.gaps[|a.gaps|..] == b.gaps[|a.gaps|..] + [g];
    }
  }

  // ----- A chunk that is lost -----

  /** A heartbeat is due, the send will stall, and two chunks arrive one after the other. */
  predicate LosesChunk(a: View, heartbeat: int)
  {
    && Stalled(a, heartbeat, 8) && a.now <= CLOCK_MAX && a.nextSend < a.now
    && |a.script| >= 2 && a.script[1].Chunk?
  }

  /** The chunk that arrived during the send has been overwritten by the next. */
  predicate ChunkLost(a: View, b: View)
    requires |a.script| >= 2 && a.script[0].Chunk? && a.script[1].Chunk? && a.now <= CLOCK_MAX
  {
    && b.gaps == a.gaps + [Gap(a.reader, a.script[0].bytes, ScriptBytes(a.script[1..]))]
    && b.reader == a.reader && b.queue == a.queue && !b.broken && b.buffered == a.script[1].bytes && b.script == a.script[2..]
    && a.sleeps < b.sleeps && b.sleeps[|a.sleeps|] == Sleep(Sending, a.now, MsUntil(a.nextRecv, a.now), a.nextRecv, a.nextSend)
  }

  lemma LosesMeans(a: View, heartbeat: int)
    requires LosesChunk(a, heartbeat)
    ensures Stalled(a, heartbeat, 8) && a.now <= CLOCK_MAX && a.nextSend < a.now
    ensures |a.script| >= 2 && a.script[0].Chunk? && a.script[1].Chunk?
  {
  }

  lemma ChunkIsLost(cfg: Config, a: View, b: View, d: View, heartbeat: int, deadline: UInt64, st: Status)
    requires LosesChunk(a, heartbeat) && TookChunk(a, b) && ReceivedBy(cfg, b, d, deadline, st) && d.sleeps == b.sleeps
    requires d.gaps != b.gaps && b.script != [] && b.script[0].Chunk? && d.buffered == b.script[0].bytes && d.script == b.script[1..]
    ensures LosesChunk(a, heartbeat) && a.script[0].Chunk? && ChunkLost(a, d)
  {
    hide Slept, Stalled, Overlooked, Following, ScriptBytes;
    assert a.script[1..][1..] == a.script[2..];
  }

  // ----- Waiting for a frame -----

  /**
    What waiting for a frame does: every poll is in time; the real frames among those taken off the
    stream are the ones queued, in order, and last the one delivered; and the gaps account for all that was
    overwritten. If no send went on to receive, nothing was, and the untimed contract holds.
   */
  ghost predicate KeptByFrame(cfg: Config, a: View, b: View, heartbeat: int, timeoutDeadline: UInt64, w: Waited, taken: seq<Frame>)
  {
    && b.now >= a.now && b.diversions >= a.diversions && (b.missed ==> a.missed || w == Refused(TimerFailure))
    && (heartbeat > 0 || Near(timeoutDeadline, a.now) ==> InTime(a.sleeps, b.sleeps, timeoutDeadline))
    && a.queue <= b.queue && a.gaps <= b.gaps && a.sleeps <= b.sleeps
    && Accounted(cfg, a.ahead, b.gaps[|a.gaps|..], End(b, if w.Refused? then w.status else OK), taken)
    && Real(taken) == Real(b.queue[|a.queue|..]) + (if w.Delivered? then [w.frame] else [])
    && |b.gaps| + |b.script| <= |a.gaps| + |a.script|
    && (heartbeat <= 0 || b.now <= a.nextSend ==> OnlyReading(a.sleeps, b.sleeps) && b.diversions == a.diversions && b.nextSend == a.nextSend)
    && (b.diversions == a.diversions ==> b.gaps == a.gaps && b.queue == a.queue && Untimed(a, b, w))
  }

  /** The contract of `Connection.WaitFrameInner`. */
  ghost predicate Untimed(a: View, b: View, w: Waited)
  {
    if b.broken then w.Refused? && AllHeartbeats(a.ahead.frames) && a.ahead.error == Some(w.status) else Passed(a.ahead, b.ahead, w)
  }

  lemma FrameNothing(cfg: Config, a: View, heartbeat: int, timeoutDeadline: UInt64)
    requires !a.broken
    ensures KeptByFrame(cfg, a, a, heartbeat, timeoutDeadline, Refused(OK), [])
  {
    AccountedNothing(cfg, a.ahead);
    assert a.gaps[|a.gaps|..] == [] && a.queue[|a.queue|..] == [];
    IdledNothing(a.ahead);
  }

  lemma FrameMeans(cfg: Config, a: View, b: View, heartbeat: int, timeoutDeadline: UInt64, taken: seq<Frame>)
    requires KeptByFrame(cfg, a, b, heartbeat, timeoutDeadline, Refused(OK), taken)
    ensures b.now >= a.now
  {
    hide Accounted, InTime, OnlyReading, Real;
  }

  lemma IdledStill(start: Incoming, mid: Incoming, end: Incoming)
    ensures Idled(start, mid) && Idled(mid, end) ==> Idled(start, end)
    ensures Idled(start, mid) && AllHeartbeats(mid.frames) ==> AllHeartbeats(start.frames)
    ensures Idled(start, mid) ==> start.error == mid.error
  {
    if Idled(start, mid) {
      IdledMore(start, mid, end);
      IdledToTheEnd(start, mid);
    }
  }

  lemma ParsedInFrame(
      cfg: Config, a: View, b: View, d: View, heartbeat: int, timeoutDeadline: UInt64, taken: seq<Frame>, parsed: Option<Waited>)
      returns (taken': seq<Frame>)
    requires KeptByFrame(cfg, a, b, heartbeat, timeoutDeadline, Refused(OK), taken) && !b.broken
    requires d == b.(reader := d.reader, buffered := d.buffered, broken := d.broken, ahead := d.ahead)
    requires d.broken ==>
               && parsed.Some? && parsed.value.Refused? && AllHeartbeats(b.ahead.frames) && b.ahead.error == Some(parsed.value.status)
    requires !d.broken ==>
               if parsed.None? then Idled(b.ahead, d.ahead)
               else parsed.value.Delivered? && !parsed.value.frame.Heartbeat? && Passed(b.ahead, d.ahead, parsed.value)
    ensures KeptByFrame(cfg, a, d, heartbeat, timeoutDeadline, if parsed.None? then Refused(OK) else parsed.value, taken')
  {
    hide Accounted, InTime, OnlyReading, Real, Near, Idled, AllHeartbeats, IsSuffix, Taken;
    var mid := if parsed.Some? && parsed.value.Delivered? then d.ahead.(frames := [parsed.value.frame] + d.ahead.frames) else d.ahead;
    IdledStill(a.ahead, b.ahead, mid);
    var end := if d.broken then Incoming([], Some(parsed.value.status)) else d.ahead;
    TakenWhileParsing(b.ahead, end, d.broken, parsed);
    var more := Taken(b.ahead.frames, end.frames);
    AccountedMore(cfg, a.ahead, b.gaps[|a.gaps|..], b.ahead, taken, end);
    RealOfConcat(taken, more);
    var q := Real(d.queue[|a.queue|..]);
    assert (q + []) + Real(more) == q + Real(more);
    return taken + more;
  }

  /** The frames taken are heartbeats, and the frame that is delivered. */
  lemma TakenWhileParsing(start: Incoming, end: Incoming, broken: bool, parsed: Option<Waited>)
    requires if broken then end.frames == [] && AllHeartbeats(start.frames) && start.error == end.error && parsed.Some? && parsed.value.Refused?
             else if parsed.None? then Idled(start, end)
             else parsed.value.Delivered? && !parsed.value.frame.Heartbeat? && Passed(start, end, parsed.value)
    ensures IsSuffix(start.frames, end.frames) && end.error == start.error
    ensures Real(Taken(start.frames, end.frames)) == if parsed.Some? && parsed.value.Delivered? then [parsed.value.frame] else []
  {
    hide Real;
    if broken {
      assert Taken(start.frames, []) == start.frames;
      HeartbeatsAreNotReal(start.frames, 0);
    } else if parsed.None? {
      HeartbeatsAreNotReal(Taken(start.frames, end.frames), 0);
    } else {
      var f := parsed.value.frame;
      var mid := [f] + end.frames;
      HeartbeatsAreNotReal(Taken(start.frames, mid), 0);
      assert mid[1..] == end.frames;
      assert IsSuffix(mid, end.frames) && Taken(mid, end.frames) == [f];
      TakenInOrder(start.frames, mid, end.frames);
      RealOfConcat(Taken(start.frames, mid), [f]);
      RealOne(f, 0);
    }
  }

  lemma ReceivedInFrame(
      cfg: Config, a: View, b: View, d: View, heartbeat: int, timeoutDeadline: UInt64, taken: seq<Frame>, st: Status)
    requires KeptByFrame(cfg, a, b, heartbeat, timeoutDeadline, Refused(OK), taken) && !b.broken && b.buffered == []
    requires KeptByWait(cfg, b, d, heartbeat, timeoutDeadline, st)
    ensures |d.queue| >= |b.queue|
    ensures KeptByFrame(cfg, a, d, heartbeat, timeoutDeadline, Refused(st), taken + d.queue[|b.queue|..])
  {
    hide Accounted, Real, Near, InTime, OnlyReading, Idled;
    NearStays(timeoutDeadline, a.now, b.now);
    var more := d.queue[|b.queue|..];
    AccountedThen(cfg, a.ahead, b.gaps[|a.gaps|..], b.ahead, taken, d.gaps[|b.gaps|..], End(d, st), more);
    assert d.gaps[|a.gaps|..] == b.gaps[|a.gaps|..] + d.gaps[|b.gaps|..];
    assert d.queue[|a.queue|..] == b.queue[|a.queue|..] + more;
    RealOfConcat(taken, more);
    RealOfConcat(b.queue[|a.queue|..], more);
    InTimeTwice(a.sleeps, b.sleeps, d.sleeps, timeoutDeadline);
  }

  // ----- A wait that loses a chunk -----

  /** A wait that has lost the chunk that arrived during the heartbeat. */
  predicate LostInWait(a: View, b: View)
    requires |a.script| >= 2 && a.script[0].Chunk? && a.now <= CLOCK_MAX
  {
    && a.gaps < b.gaps && b.gaps[|a.gaps|] == Gap(a.reader, a.script[0].bytes, ScriptBytes(a.script[1..]))
    && |b.gaps| + |b.script| < |a.gaps| + |a.script|
    && a.sleeps < b.sleeps && b.sleeps[|a.sleeps|] == Sleep(Sending, a.now, MsUntil(a.nextRecv, a.now), a.nextRecv, a.nextSend)
  }

  lemma LostFirst(a: View, b: View, heartbeat: int)
    requires LosesChunk(a, heartbeat) && a.script[0].Chunk? && ChunkLost(a, b)
    ensures LostInWait(a, b)
  {
    hide Stalled;
  }

  lemma LostStill(a: View, b: View, d: View)
    requires |a.script| >= 2 && a.script[0].Chunk? && a.now <= CLOCK_MAX && LostInWait(a, b)
    requires b.gaps <= d.gaps && b.sleeps <= d.sleeps && |d.gaps| + |d.script| <= |b.gaps| + |b.script|
    ensures LostInWait(a, d)
  {
  }
}
