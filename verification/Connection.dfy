/**
  Waiting for frames (amqp_socket.c). The connection holds the frame reader, the unparsed bytes of the
  socket buffer and the frame queue; `script` is what the socket will deliver. `Incoming` is the
  abstraction: the frames the remaining bytes stand for, however they are chunked.
 */
module Connection {
  import opened Wire
  import opened Framing
  import opened FrameQueue

  const CHANNEL_CLOSE: UInt32 := 0x00140028
  const CONNECTION_CLOSE: UInt32 := 0x000A0032

  /** The size of the socket buffer; a receive yields at least one byte, as the end of the stream is a failure. */
  const SOCKET_BUFFER := 131072

  type Received = b: Bytes | 0 < |b| <= SOCKET_BUFFER witness [0]

  /** What a socket receive does next; timeouts, socket errors and the end of the stream are failures. */
  datatype Event = Chunk(bytes: Received) | Trouble(status: Failure)

  function ScriptBytes(script: seq<Event>): Bytes
  {
    if script == [] then []
    else (if script[0].Chunk? then script[0].bytes else []) + ScriptBytes(script[1..])
  }

  // ----- Lists of frames -----

  /** The frames other than heartbeats. */
  function Real(fs: seq<Frame>): seq<Frame>
  {
    if fs == [] then [] else Real(fs[..|fs| - 1]) + (if fs[|fs| - 1].Heartbeat? then [] else [fs[|fs| - 1]])
  }

  predicate IsRealOn(f: Frame, ch: UInt16)
  {
    !f.Heartbeat? && ChannelOfFrame(f) == ch
  }

  function OnChannel(fs: seq<Frame>, ch: UInt16): seq<Frame>
  {
    if fs == [] then []
    else OnChannel(fs[..|fs| - 1], ch) + (if IsRealOn(fs[|fs| - 1], ch) then [fs[|fs| - 1]] else [])
  }

  /** `after` is what is left of `before`. */
  predicate IsSuffix(before: seq<Frame>, after: seq<Frame>)
  {
    |after| <= |before| && after == before[|before| - |after|..]
  }

  /** The frames taken from `before` to get to `after`. */
  function Taken(before: seq<Frame>, after: seq<Frame>): seq<Frame>
    requires IsSuffix(before, after)
  {
    before[..|before| - |after|]
  }

  predicate AllHeartbeats(fs: seq<Frame>)
  {
    forall i :: 0 <= i < |fs| ==> fs[i].Heartbeat?
  }

  lemma {:induction false} RealOfConcat(a: seq<Frame>, b: seq<Frame>)
    ensures Real(a + b) == Real(a) + Real(b)
    decreases |b|
  {
    if b == [] {
      assert a + b == a;
    } else {
      var front := b[..|b| - 1];
      assert (a + b)[..|a + b| - 1] == a + front;
      RealOfConcat(a, front);
    }
  }

  lemma {:induction false} OnChannelOfConcat(a: seq<Frame>, b: seq<Frame>, ch: UInt16)
    ensures OnChannel(a + b, ch) == OnChannel(a, ch) + OnChannel(b, ch)
    decreases |b|
  {
    if b == [] {
      assert a + b == a;
    } else {
      var front := b[..|b| - 1];
      assert (a + b)[..|a + b| - 1] == a + front;
      OnChannelOfConcat(a, front, ch);
    }
  }

  lemma {:induction false} HeartbeatsAreNotReal(fs: seq<Frame>, ch: UInt16)
    requires AllHeartbeats(fs)
    ensures Real(fs) == [] && OnChannel(fs, ch) == []
    decreases |fs|
  {
    if fs != [] {
      HeartbeatsAreNotReal(fs[..|fs| - 1], ch);
    }
  }

  // ----- One step of parsing -----

  /** What is still to come. */
  datatype Incoming = Incoming(frames: seq<Frame>, error: Option<Status>)

  function IncomingOf(cfg: Config, r: Reader, bytes: Bytes): Incoming
    requires ValidReader(cfg, r)
  {
    var f := Feed(cfg, r, bytes);
    Incoming(f.frames, f.error)
  }

  /** Parsing from the front of the buffered bytes `a` takes exactly what it returns off what is to come. */
  lemma ParseStep(cfg: Config, r: Reader, a: Bytes, b: Bytes)
    requires ValidReader(cfg, r) && a != []
    ensures var s := HandleInput(cfg, r, a);
            && s.consumed <= |a|
            && if s.outcome.Fail? then IncomingOf(cfg, r, a + b) == Incoming([], Some(s.outcome.status))
               else
                 && s.consumed > 0 && ValidReader(cfg, s.reader)
                 && var rest := IncomingOf(cfg, s.reader, a[s.consumed..] + b);
                    IncomingOf(cfg, r, a + b) == rest.(frames := Emitted(s.outcome) + rest.frames)
  {
    hide HandleInput, RunBytes, FeedByte, Feed, ValidReader;
    var s := HandleInput(cfg, r, a);
    HandleInputIsRunBytes(cfg, r, a);
    RunBytesProgress(cfg, r, a);
    FeedIsRunThenFeed(cfg, r, a);
    FeedConcat(cfg, r, a, b);
    if !s.outcome.Fail? {
      FeedConcat(cfg, s.reader, a[s.consumed..], b);
      var f := Feed(cfg, s.reader, a[s.consumed..]);
      if f.error.None? {
        assert Emitted(s.outcome) + f.frames + Feed(cfg, f.reader, b).frames ==
               Emitted(s.outcome) + (f.frames + Feed(cfg, f.reader, b).frames);
      }
    }
  }

  class AmqpConnection {
    const cfg: Config
    const queue: Queue
    var reader: Reader
    var buffered: Bytes
    var script: seq<Event>
    /** A protocol error has been returned; the reader must not be used any more. */
    var broken: bool

    ghost predicate Valid()
      reads this, queue, queue.links
    {
      queue.Valid() && ValidReader(cfg, reader)
    }

    /** The socket neither fails nor times out before it has delivered everything. */
    ghost predicate Smooth()
      reads this
    {
      forall i :: 0 <= i < |script| ==> script[i].Chunk?
    }

    ghost function Ahead(): Incoming
      requires ValidReader(cfg, reader)
      reads this
    {
      IncomingOf(cfg, reader, buffered + ScriptBytes(script))
    }

    constructor (cfg: Config, script: seq<Event>)
      ensures Valid() && !broken && queue.Contents() == [] && fresh(queue) && fresh(queue.links)
      ensures Ahead() == IncomingOf(cfg, NEW_READER, ScriptBytes(script))
      ensures this.cfg == cfg && this.script == script && buffered == [] && reader == NEW_READER
    {
      this.cfg, this.script, reader, buffered, broken := cfg, script, NEW_READER, [], false;
      queue := new Queue();
      assert [] + ScriptBytes(script) == ScriptBytes(script);
    }

    /** `consume_one_frame` */
    method ConsumeOneFrame() returns (o: Outcome)
      requires Valid() && !broken && buffered != []
      modifies this`reader, this`buffered, this`broken
      ensures Valid() && broken == o.Fail?
      ensures o.Fail? ==> old(Ahead()) == Incoming([], Some(o.status))
      ensures !o.Fail? ==> |buffered| < old(|buffered|) && old(Ahead()) == Ahead().(frames := Emitted(o) + Ahead().frames)
    {
      hide HandleInput, Feed;
      ParseStep(cfg, reader, buffered, ScriptBytes(script));
      var s := HandleInput(cfg, reader, buffered);
      o := s.outcome;
      if o.Fail? {
        broken := true;
      } else {
        reader, buffered := s.reader, buffered[s.consumed..];
      }
    }

    /**
      A receive on the socket replaces the contents of the socket buffer, so bytes not yet parsed would
      be lost. The end of the script is the peer closing.
     */
    method Recv() returns (st: Status)
      requires Valid() && !broken
      modifies this`buffered, this`script
      ensures Valid() && (old(buffered) == [] || st != OK ==> Ahead() == old(Ahead()))
      ensures st == OK <==> old(script) != [] && old(script)[0].Chunk?
      ensures script == if old(script) == [] then [] else old(script)[1..]
      ensures st == OK ==> buffered == old(script)[0].bytes && buffered + ScriptBytes(script) == ScriptBytes(old(script))
      ensures st != OK ==> buffered == old(buffered) && ScriptBytes(script) == ScriptBytes(old(script))
      ensures st != OK ==> st == if old(script) == [] then ConnectionClosed else old(script)[0].status
    {
      hide Feed, ValidReader;
      if script == [] {
        return ConnectionClosed;
      }
      var e := script[0];
      script := script[1..];
      match e {
        case Chunk(bytes) =>
          buffered := bytes;
          assert [] + (bytes + ScriptBytes(script)) == bytes + ScriptBytes(script);
          return OK;
        case Trouble(status) =>
          assert [] + ScriptBytes(script) == ScriptBytes(script);
          return status;
      }
    }

    /** The parsing loop of `wait_frame_inner`: a frame, a parse error, or nothing once the buffer is empty. */
    method ParseBuffered() returns (w: Option<Waited>)
      requires Valid() && !broken
      modifies this`reader, this`buffered, this`broken
      ensures Valid() && queue.Contents() == old(queue.Contents())
      ensures broken ==>
                && w.Some? && w.value.Refused? && IsDataError(w.value.status)
                && AllHeartbeats(old(Ahead()).frames) && old(Ahead()).error == Some(w.value.status)
      ensures !broken && w.Some? ==> w.value.Delivered? && !w.value.frame.Heartbeat? && Passed(old(Ahead()), Ahead(), w.value)
      ensures !broken && w.None? ==> buffered == [] && Idled(old(Ahead()), Ahead())
      ensures old(buffered) == [] ==> !broken && w.None? && reader == old(reader)
      ensures w.Some? ==> w.value.Delivered? ==> |buffered| < |old(buffered)|
    {
      hide Feed, ScriptBytes, ValidReader, IncomingOf;
      ghost var start := Ahead();
      while buffered != []
        invariant Valid() && !broken && Idled(start, Ahead())
        invariant old(buffered) == [] ==> buffered == [] && reader == old(reader)
        invariant |buffered| <= |old(buffered)|
        decreases |buffered|
      {
        ghost var before := Ahead();
        var o := ConsumeOneFrame();
        if o.Fail? {
          IdledThenNothing(start, before);
          return Some(Refused(o.status));
        }
        IdledThen(start, before, Emitted(o), Ahead());
        if o.Got? && !o.frame.Heartbeat? {
          return Some(Delivered(o.frame));
        }
      }
      return None;
    }

    /**
      `wait_frame_inner` without its deadlines: `Recv` stands for all that happens between two parses.
      It returns the next frame that is not a heartbeat, or the failure met first.
     */
    method WaitFrameInner() returns (w: Waited)
      requires Valid() && !broken
      modifies this`reader, this`buffered, this`script, this`broken
      ensures Valid() && queue.Contents() == old(queue.Contents())
      ensures broken ==> w.Refused? && AllHeartbeats(old(Ahead()).frames) && old(Ahead()).error == Some(w.status)
      ensures !broken ==> Passed(old(Ahead()), Ahead(), w)
      ensures old(Smooth()) ==> Smooth() && (w.Refused? && !broken ==> Ahead().frames == [])
    {
      hide Feed, ScriptBytes, ValidReader, IncomingOf, AllHeartbeats, IsSuffix, Taken;
      ghost var start := Ahead();
      IdledNothing(start);
      while true
        invariant Valid() && !broken && Idled(start, Ahead()) && (old(Smooth()) ==> Smooth())
        decreases |script|
      {
        ghost var before := Ahead();
        var parsed := ParseBuffered();
        if broken {
          IdledToTheEnd(start, before);
        } else {
          IdledMore(start, before, Ahead());
          if parsed.Some? {
            IdledMore(start, before, Ahead().(frames := [parsed.value.frame] + Ahead().frames));
          }
        }
        if parsed.Some? {
          return parsed.value;
        }
        ghost var later := script;
        var st := Recv();
        if st != OK {
          if later == [] {
            NothingAhead(cfg, reader);
          }
          return Refused(st);
        }
      }
    }

    /** `amqp_simple_wait_frame_on_channel` */
    method WaitOnChannel(ch: UInt16) returns (w: Waited)
      requires Valid() && !broken
      modifies this`reader, this`buffered, this`script, this`broken, queue, queue.links
      ensures Valid()
      ensures forall i :: 0 <= i < |queue.links| ==> queue.links[i] in old(queue.links) || fresh(queue.links[i])
      ensures var q, k := old(queue.Contents()), FirstOn(old(queue.Contents()), ch);
              if k < |q| then
                // the match is taken from the queue, and so are the frames ahead of it
                !broken && w == Delivered(q[k]) && queue.Contents() == q[k + 1..] && Ahead() == old(Ahead())
              else if broken then
                && w.Refused? && old(Ahead()).error == Some(w.status)
                && queue.Contents() == q + Real(old(Ahead()).frames) && OnChannel(old(Ahead()).frames, ch) == []
              else
                && IsSuffix(old(Ahead()).frames, Ahead().frames) && Ahead().error == old(Ahead()).error
                && Sorted(Taken(old(Ahead()).frames, Ahead().frames), ch, q, queue.Contents(), w)
      ensures old(Smooth()) ==> Smooth() && (w.Refused? && !broken ==> Ahead().frames == [])
    {
      hide Feed, ScriptBytes, ValidReader, IncomingOf, FirstOn, Queue.Valid, Sorted;
      var found, f := queue.TakeOnChannel(ch);
      if found {
        return Delivered(f);
      }
      w := ReadUntil(ch);
    }

    /** The loop of `amqp_simple_wait_frame_on_channel`: reads from the socket and queues frames of other channels. */
    method ReadUntil(ch: UInt16) returns (w: Waited)
      requires Valid() && !broken
      modifies this`reader, this`buffered, this`script, this`broken, queue, queue.links
      ensures Valid()
      ensures forall i :: 0 <= i < |queue.links| ==> queue.links[i] in old(queue.links) || fresh(queue.links[i])
      ensures var q, start := old(queue.Contents()), old(Ahead());
              if broken then
                && w.Refused? && start.error == Some(w.status)
                && queue.Contents() == q + Real(start.frames) && OnChannel(start.frames, ch) == []
              else
                && IsSuffix(start.frames, Ahead().frames) && Ahead().error == start.error
                && Sorted(Taken(start.frames, Ahead().frames), ch, q, queue.Contents(), w)
      ensures old(Smooth()) ==> Smooth() && (w.Refused? && !broken ==> Ahead().frames == [])
    {
      hide Feed, ScriptBytes, ValidReader, IncomingOf, Queue.Valid, Queue.Contents, Sorted, Passed;
      hide Real, OnChannel, AllHeartbeats, IsSuffix, Taken;
      ghost var q, start := queue.Contents(), Ahead();
      SortedNothing(start.frames, ch, q);
      while true
        invariant Valid() && !broken
        invariant forall i :: 0 <= i < |queue.links| ==> queue.links[i] in old(queue.links) || fresh(queue.links[i])
        invariant IsSuffix(start.frames, Ahead().frames) && Ahead().error == start.error
        invariant Sorted(Taken(start.frames, Ahead().frames), ch, q, queue.Contents(), Refused(OK))
        invariant old(Smooth()) ==> Smooth()
        decreases |Ahead().frames|
      {
        ghost var before, contents := Ahead(), queue.Contents();
        w := WaitFrameInner();
        if broken {
          SortedToTheEnd(start.frames, before.frames, ch, q, contents);
          return;
        }
        SortedMore(start.frames, before, Ahead(), ch, q, contents, w);
        if w.Refused? || ChannelOfFrame(w.frame) == ch {
          return;
        }
        queue.Append(w.frame);
      }
    }

    /** `amqp_simple_wait_frame_noblock` */
    method WaitNext() returns (w: Waited)
      requires Valid() && !broken
      modifies this`reader, this`buffered, this`script, this`broken, queue
      ensures Valid()
      ensures forall i :: 0 <= i < |queue.links| ==> queue.links[i] in old(queue.links)
      ensures var q, start := old(queue.Contents()), old(Ahead());
              if q != [] then !broken && w == Delivered(q[0]) && queue.Contents() == q[1..] && Ahead() == start
              else
                && queue.Contents() == []
                && (broken ==> w.Refused? && AllHeartbeats(start.frames) && start.error == Some(w.status))
                && (!broken ==> Passed(start, Ahead(), w))
    {
      hide Feed, ScriptBytes, ValidReader, IncomingOf, Passed;
      if queue.first != null {
        var f := queue.TakeFirst();
        return Delivered(f);
      }
      w := WaitFrameInner();
    }

    /** The parsing loop of `amqp_try_recv`: everything parsed goes to the queue, heartbeats included. */
    method QueueBuffered() returns (failure: Option<Status>)
      requires Valid() && !broken
      modifies this`reader, this`buffered, this`broken, queue, queue.links
      ensures Valid()
      ensures forall i :: 0 <= i < |queue.links| ==> queue.links[i] in old(queue.links) || fresh(queue.links[i])
      ensures broken == failure.Some?
      ensures old(buffered) == [] ==> !broken && reader == old(reader) && queue.Contents() == old(queue.Contents())
      ensures var q, start := old(queue.Contents()), old(Ahead());
              if broken then failure == start.error && IsDataError(failure.value) && queue.Contents() == q + start.frames
              else
                && buffered == [] && IsSuffix(start.frames, Ahead().frames) && Ahead().error == start.error
                && queue.Contents() == q + Taken(start.frames, Ahead().frames)
    {
      hide Feed, ScriptBytes, ValidReader, IncomingOf, Queue.Valid, Queue.Contents, IsSuffix, Taken;
      ghost var q, start := queue.Contents(), Ahead();
      QueuedNothing(start.frames, q);
      while buffered != []
        invariant Valid() && !broken
        invariant forall i :: 0 <= i < |queue.links| ==> queue.links[i] in old(queue.links) || fresh(queue.links[i])
        invariant IsSuffix(start.frames, Ahead().frames) && Ahead().error == start.error
        invariant queue.Contents() == q + Taken(start.frames, Ahead().frames)
        invariant old(buffered) == [] ==> buffered == [] && reader == old(reader) && queue.Contents() == q
        decreases |buffered|
      {
        ghost var before, contents := Ahead(), queue.Contents();
        var o := ConsumeOneFrame();
        if o.Fail? {
          TakenAll(start.frames);
          return Some(o.status);
        }
        QueuedMore(start.frames, before.frames, Ahead().frames, Emitted(o), q, contents);
        if o.Got? {
          queue.AppendBehindLast(o.frame);
        }
      }
      return None;
    }

    /** `amqp_try_recv` without its deadline. */
    method TryRecv() returns (failure: Option<Status>)
      requires Valid() && !broken
      modifies this`reader, this`buffered, this`script, this`broken, queue, queue.links
      ensures Valid()
      ensures forall i :: 0 <= i < |queue.links| ==> queue.links[i] in old(queue.links) || fresh(queue.links[i])
      ensures var q, start := old(queue.Contents()), old(Ahead());
              if broken then failure == start.error && failure.Some? && queue.Contents() == q + start.frames
              else
                && IsSuffix(start.frames, Ahead().frames) && Ahead().error == start.error
                && queue.Contents() == q + Taken(start.frames, Ahead().frames)
    {
      hide Feed, ScriptBytes, ValidReader, IncomingOf, Queue.Valid, Queue.Contents;
      failure := QueueBuffered();
      if failure.None? {
        var st := Recv();
        failure := if st == OK then None else Some(st);
      }
    }
  }

  lemma NothingAhead(cfg: Config, r: Reader)
    requires ValidReader(cfg, r)
    ensures IncomingOf(cfg, r, [] + ScriptBytes([])) == Incoming([], None)
  {
    assert [] + ScriptBytes([]) == [];
  }

  lemma TakenAll(frames: seq<Frame>)
    ensures IsSuffix(frames, []) && Taken(frames, []) == frames
  {
  }

  lemma QueuedNothing(frames: seq<Frame>, q: seq<Frame>)
    ensures IsSuffix(frames, frames) && q == q + Taken(frames, frames)
  {
    assert frames[0..] == frames && Taken(frames, frames) == [];
    assert q + [] == q;
  }

  lemma QueuedMore(start: seq<Frame>, before: seq<Frame>, after: seq<Frame>, emitted: seq<Frame>, q: seq<Frame>, q': seq<Frame>)
    requires IsSuffix(start, before) && before == emitted + after && q' == q + Taken(start, before)
    ensures IsSuffix(start, after) && q' + emitted == q + Taken(start, after)
    ensures emitted == [] ==> q' == q + Taken(start, after)
  {
    var n := |start| - |before|;
    assert start[n..][..|emitted|] == emitted && start[n..][|emitted|..] == after;
    assert start[n + |emitted|..] == after;
    assert start[..n + |emitted|] == start[..n] + emitted;
  }

  /**
    `taken` was read while waiting for channel `ch`: the frames of other channels went to the queue in
    order, heartbeats were dropped, and the frame delivered, if any, is the last and only one of `ch`.
   */
  predicate Sorted(taken: seq<Frame>, ch: UInt16, q: seq<Frame>, q': seq<Frame>, w: Waited)
  {
    match w
    case Refused(_) => q' == q + Real(taken) && OnChannel(taken, ch) == []
    case Delivered(f) =>
      && taken != [] && f == taken[|taken| - 1] && IsRealOn(f, ch)
      && q' == q + Real(taken[..|taken| - 1]) && OnChannel(taken, ch) == [f]
  }

  lemma SortedNothing(frames: seq<Frame>, ch: UInt16, q: seq<Frame>)
    ensures IsSuffix(frames, frames) && Sorted(Taken(frames, frames), ch, q, q, Refused(OK))
  {
    assert frames[0..] == frames && Taken(frames, frames) == [];
    assert q + [] == q;
  }

  datatype Waited = Delivered(frame: Frame) | Refused(status: Status)

  /** Only heartbeats were taken. */
  predicate Idled(before: Incoming, after: Incoming)
  {
    && IsSuffix(before.frames, after.frames) && after.error == before.error
    && AllHeartbeats(Taken(before.frames, after.frames))
  }

  /** Heartbeats were taken, and behind them the frame that is delivered. */
  predicate Passed(before: Incoming, after: Incoming, w: Waited)
  {
    match w
    case Refused(_) => Idled(before, after)
    case Delivered(f) =>
      && !f.Heartbeat?
      && Idled(before, after.(frames := [f] + after.frames))
  }

  lemma IdledThen(start: Incoming, before: Incoming, emitted: seq<Frame>, after: Incoming)
    requires Idled(start, before) && |emitted| <= 1 && before == after.(frames := emitted + after.frames)
    ensures emitted == [] || emitted[0].Heartbeat? ==> Idled(start, after)
    ensures emitted != [] ==> Idled(start, after.(frames := [emitted[0]] + after.frames))
  {
    hide Idled, AllHeartbeats, IsSuffix, Taken;
    if emitted == [] {
      assert emitted + after.frames == after.frames;
      assert before == after;
    } else {
      assert emitted == [emitted[0]];
      assert before == after.(frames := [emitted[0]] + after.frames);
      IdledOne(start, before, after, emitted[0]);
    }
  }

  /** One frame more is taken; a heartbeat does not matter. */
  lemma IdledOne(start: Incoming, before: Incoming, after: Incoming, f: Frame)
    requires Idled(start, before) && before.frames == [f] + after.frames && before.error == after.error
    ensures f.Heartbeat? ==> Idled(start, after)
  {
    hide AllHeartbeats, IsSuffix, Taken;
    TakenOne(f, after.frames);
    TakenInOrder(start.frames, before.frames, after.frames);
    HeartbeatMore(Taken(start.frames, before.frames), f);
  }

  lemma TakenOne(f: Frame, rest: seq<Frame>)
    ensures IsSuffix([f] + rest, rest) && Taken([f] + rest, rest) == [f]
  {
    assert ([f] + rest)[1..] == rest;
  }

  lemma HeartbeatMore(fs: seq<Frame>, f: Frame)
    ensures AllHeartbeats(fs) && f.Heartbeat? ==> AllHeartbeats(fs + [f])
  {
  }

  lemma IdledNothing(start: Incoming)
    ensures Idled(start, start)
  {
    assert start.frames[0..] == start.frames;
  }

  lemma IdledMore(start: Incoming, mid: Incoming, end: Incoming)
    requires Idled(start, mid)
    ensures Idled(mid, end) ==> Idled(start, end)
  {
    if Idled(mid, end) {
      TakenInOrder(start.frames, mid.frames, end.frames);
    }
  }

  lemma IdledToTheEnd(start: Incoming, mid: Incoming)
    requires Idled(start, mid)
    ensures AllHeartbeats(mid.frames) ==> AllHeartbeats(start.frames)
  {
    assert start.frames == Taken(start.frames, mid.frames) + mid.frames;
  }

  lemma IdledThenNothing(start: Incoming, before: Incoming)
    requires Idled(start, before) && before.frames == []
    ensures AllHeartbeats(start.frames)
  {
    assert Taken(start.frames, []) == start.frames;
  }

  /** Positions of three successive states of what is to come. */
  lemma TakenInOrder(a: seq<Frame>, b: seq<Frame>, c: seq<Frame>)
    requires IsSuffix(a, b) && IsSuffix(b, c)
    ensures IsSuffix(a, c) && Taken(a, c) == Taken(a, b) + Taken(b, c)
  {
  }

  /** One call of `wait_frame_inner`: refused, delivering, or reading a frame that is to be queued. */
  lemma SortedMore(
      start: seq<Frame>, before: Incoming, after: Incoming, ch: UInt16, q: seq<Frame>, q': seq<Frame>, w: Waited)
    requires IsSuffix(start, before.frames) && Sorted(Taken(start, before.frames), ch, q, q', Refused(OK))
    requires Passed(before, after, w)
    ensures IsSuffix(start, after.frames) && after.error == before.error
    ensures w.Refused? ==> Sorted(Taken(start, after.frames), ch, q, q', w)
    ensures w.Delivered? && ChannelOfFrame(w.frame) == ch ==> Sorted(Taken(start, after.frames), ch, q, q', w)
    ensures w.Delivered? && ChannelOfFrame(w.frame) != ch ==>
              && |after.frames| < |before.frames|
              && Sorted(Taken(start, after.frames), ch, q, q' + [w.frame], Refused(OK))
  {
    hide Real, OnChannel, AllHeartbeats, IsSuffix, Taken;
    match w
    case Refused(_) =>
      TakenInOrder(start, before.frames, after.frames);
      SkipHeartbeats(Taken(start, before.frames), Taken(before.frames, after.frames), ch);
    case Delivered(f) =>
      var mid := [f] + after.frames;
      TakenInOrder(start, before.frames, mid);
      SkipHeartbeats(Taken(start, before.frames), Taken(before.frames, mid), ch);
      TakenOne(f, after.frames);
      TakenInOrder(start, mid, after.frames);
      ShorterBy(before.frames, mid, after.frames);
      SortedOne(Taken(start, mid), f, ch, q, q');
  }

  lemma ShorterBy(before: seq<Frame>, mid: seq<Frame>, after: seq<Frame>)
    requires IsSuffix(before, mid) && |after| < |mid|
    ensures |after| < |before|
  {
  }

  /** One frame behind frames none of which is on the channel: it is delivered, or one more for the queue. */
  lemma SortedOne(front: seq<Frame>, f: Frame, ch: UInt16, q: seq<Frame>, q': seq<Frame>)
    requires q' == q + Real(front) && OnChannel(front, ch) == [] && !f.Heartbeat?
    ensures ChannelOfFrame(f) == ch ==> Sorted(front + [f], ch, q, q', Delivered(f))
    ensures ChannelOfFrame(f) != ch ==> Sorted(front + [f], ch, q, q' + [f], Refused(OK))
  {
    hide Real, OnChannel;
    RealOfConcat(front, [f]);
    OnChannelOfConcat(front, [f], ch);
    RealOne(f, ch);
    var taken := front + [f];
    assert taken[..|taken| - 1] == front && taken[|taken| - 1] == f;
  }

  lemma SkipHeartbeats(a: seq<Frame>, b: seq<Frame>, ch: UInt16)
    requires AllHeartbeats(b)
    ensures Real(a + b) == Real(a) && OnChannel(a + b, ch) == OnChannel(a, ch)
  {
    RealOfConcat(a, b);
    OnChannelOfConcat(a, b, ch);
    HeartbeatsAreNotReal(b, ch);
    assert Real(a) + [] == Real(a) && OnChannel(a, ch) + [] == OnChannel(a, ch);
  }

  lemma RealOne(f: Frame, ch: UInt16)
    requires !f.Heartbeat?
    ensures Real([f]) == [f] && OnChannel([f], ch) == if ChannelOfFrame(f) == ch then [f] else []
  {
    assert [f][..0] == [];
  }

  lemma SortedToTheEnd(start: seq<Frame>, before: seq<Frame>, ch: UInt16, q: seq<Frame>, q': seq<Frame>)
    requires IsSuffix(start, before) && AllHeartbeats(before)
    requires Sorted(Taken(start, before), ch, q, q', Refused(OK))
    ensures q' == q + Real(start) && OnChannel(start, ch) == []
  {
    hide Real, OnChannel, AllHeartbeats;
    assert start == Taken(start, before) + before;
    SkipHeartbeats(Taken(start, before), before, ch);
  }
}
