/**
  Two runs of `wait_frame_inner` in which sending a heartbeat stalls, for every heartbeat interval: one
  poll outlasts the caller's deadline, and the chunk that arrives meanwhile is lost.
 */
module HeartbeatRuns {
  import opened Wire
  import opened Framing
  import opened FrameCodec
  import opened FrameQueue
  import opened Connection
  import opened Deadlines
  import opened Sleeping
  import opened Timeline
  import opened Sender

  /**
    An idle connection on which a heartbeat has been due for a nanosecond. The socket is full until the receive
    deadline; `first` has arrived by then, and `second` arrives next.
   */
  method StalledConnection(cfg: Config, heartbeat: int, first: Received, second: Received) returns (t: TimedConnection)
    requires cfg.frameMax >= 20 && 0 < heartbeat <= 65535
    ensures fresh(t) && fresh(t.c) && fresh(t.c.queue) && fresh(t.c.queue.links)
    ensures t.Valid() && !t.c.broken && t.c.cfg == cfg && t.heartbeat == heartbeat
    ensures LosesChunk(t.View(), heartbeat)
    ensures t.now == t.nextSend + 1 && t.nextRecv == t.nextSend + heartbeat * NS_PER_S
    ensures t.sleeps == [] && t.gaps == [] && t.c.queue.Contents() == []
    ensures t.c.reader == IDLE_READER && t.c.script == [Chunk(first), Chunk(second)]
    ensures t.c.Ahead() == IncomingOf(cfg, IDLE_READER, first + second)
  {
    hide Feed;
    var c := new AmqpConnection(cfg, [Chunk(first), Chunk(second)]);
    c.reader := IDLE_READER;
    t := new TimedConnection(c, heartbeat, 1, [], [Quiet(0)], [], [WouldBlock, Accepts(8)]);
    t.now := t.nextSend + 1;
    BytesOfTwo(first, second);
  }

  lemma BytesOfTwo(first: Received, second: Received)
    ensures [] + ScriptBytes([Chunk(first), Chunk(second)]) == first + second
    ensures ScriptBytes([Chunk(first), Chunk(second)][1..]) == second
  {
    assert [Chunk(first), Chunk(second)][1..] == [Chunk(second)];
    assert [Chunk(second)][1..] == [];
    assert ScriptBytes([Chunk(second)]) == second + [];
  }

  /**
    Whatever deadline the caller gives, if it is a millisecond or more before the receive deadline, the wait
    polls beyond it; and it polls a whole heartbeat interval beyond the deadline for the heartbeat itself.
   */
  method DeadlineIsOutlasted(cfg: Config, heartbeat: int, timeoutDeadline: UInt64) returns (t: TimedConnection, due: UInt64)
    requires cfg.frameMax >= 20 && 0 < heartbeat <= 65535
    ensures t.sleeps != [] && t.sleeps[0].purpose == Sending
    ensures timeoutDeadline + NS_PER_MS <= due ==> !EndsBy(t.sleeps[0], timeoutDeadline)
    ensures !EndsBy(t.sleeps[0], t.sleeps[0].sendDue) && due == t.sleeps[0].sendDue + heartbeat * NS_PER_S
  {
    hide Feed;
    t := StalledConnection(cfg, heartbeat, [0], [0]);
    due := t.nextRecv;
    ghost var a := t.View();
    MsUntilIsExact(due, t.now);
    ghost var taken;
    var w;
    w, taken := t.WaitFrame(timeoutDeadline);
  }

  /**
    Whatever complete frames arrive in one receive while the heartbeat is stalled, and whatever others in the
    next: all were still to come before the wait; after it, those delivered, queued and still to come are
    together only the latter.
   */
  method FramesAreLost(
      cfg: Config, heartbeat: int, ghost fs: seq<Outgoing>, ghost gs: seq<Outgoing>, first: Received, second: Received,
      timeoutDeadline: UInt64) returns (t: TimedConnection, w: Waited, ghost start: Incoming)
    requires ValidConfig(cfg) && cfg.frameMax >= 20 && 0 < heartbeat <= 65535
    requires AllSendable(cfg, fs) && AllSendable(cfg, gs) && first == StreamOf(cfg, fs) && second == StreamOf(cfg, gs)
    ensures start == Incoming(Arrivals(cfg, fs) + Arrivals(cfg, gs), None)
    ensures ValidReader(t.c.cfg, t.c.reader)
    ensures Real(t.c.queue.Contents()) + (if w.Delivered? then [w.frame] else [])
            + Real(End(t.View(), if w.Refused? then w.status else OK).frames) == Real(Arrivals(cfg, gs))
  {
    hide Feed, ValidReader, StreamOf, Arrivals, Real, AllSendable, KeptByFrame, LostInWait, ValidConfig;
    t := StalledConnection(cfg, heartbeat, first, second);
    ghost var a := t.View();
    start := a.ahead;
    StreamsToCome(cfg, fs, gs);
    BytesOfTwo(first, second);
    ghost var taken;
    w, taken := t.WaitFrame(timeoutDeadline);
    OnlyTheLatter(cfg, a, t.View(), heartbeat, timeoutDeadline, w, taken, first, second);
  }

  lemma StreamsToCome(cfg: Config, fs: seq<Outgoing>, gs: seq<Outgoing>)
    requires ValidConfig(cfg) && AllSendable(cfg, fs) && AllSendable(cfg, gs)
    ensures IncomingOf(cfg, IDLE_READER, StreamOf(cfg, fs) + StreamOf(cfg, gs)) == Incoming(Arrivals(cfg, fs) + Arrivals(cfg, gs), None)
    ensures IncomingOf(cfg, IDLE_READER, StreamOf(cfg, gs)) == Incoming(Arrivals(cfg, gs), None)
  {
    hide Feed;
    OverwrittenFramesAreLost(cfg, fs, StreamOf(cfg, gs));
    StreamArrives(cfg, gs);
  }

  /** With both chunks used up there is one gap, and behind it comes what the second chunk holds. */
  lemma OnlyTheLatter(
      cfg: Config, a: View, b: View, heartbeat: int, timeoutDeadline: UInt64, w: Waited, taken: seq<Frame>, first: Received, second: Received)
    requires KeptByFrame(cfg, a, b, heartbeat, timeoutDeadline, w, taken)
    requires a.now <= CLOCK_MAX && a.reader == IDLE_READER && a.script == [Chunk(first), Chunk(second)] && a.gaps == [] && a.queue == []
    requires ScriptBytes(a.script[1..]) == second && a.ahead == IncomingOf(cfg, IDLE_READER, first + second) && LostInWait(a, b)
    ensures Real(b.queue) + (if w.Delivered? then [w.frame] else []) + Real(End(b, if w.Refused? then w.status else OK).frames) ==
            Real(IncomingOf(cfg, IDLE_READER, second).frames)
  {
    hide InTime, OnlyReading, Feed, Untimed, Real, Accounted;
    var g := Gap(IDLE_READER, first, second);
    var now := End(b, if w.Refused? then w.status else OK);
    assert b.gaps == [g] && b.gaps[|a.gaps|..] == [g] && [g][..0] == [];
    assert b.queue[|a.queue|..] == b.queue;
    assert Following(cfg, g) == IncomingOf(cfg, IDLE_READER, second) && Overlooked(cfg, g) == a.ahead;
    var t := AccountedLast(cfg, a.ahead, [g], now, taken);
    AccountedNoGap(cfg, a.ahead, a.ahead, taken[..|taken| - |t|]);
    assert Taken(a.ahead.frames, a.ahead.frames) == [];
    assert taken == t && Following(cfg, g).frames == t + now.frames;
    RealOfConcat(t, now.frames);
  }
}
