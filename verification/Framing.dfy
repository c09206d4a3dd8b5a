/**
  Frames (section 4.2.3 of AMQP 0-9-1) and the incremental frame reader of amqp_connection.c as
  functions: `HandleInput` is `amqp_handle_input`, `FeedByte` is the same machine fed one byte at a time.
 */
module Framing {
  import opened Wire
  import opened Fields
  import opened Generator
  import opened Properties

  const FRAME_METHOD := 1
  const FRAME_HEADER := 2
  const FRAME_BODY := 3
  const FRAME_HEARTBEAT := 8
  const FRAME_END := 206
  const HEADER_SIZE := 7
  const FOOTER_SIZE := 1
  const INT32_MAX := 0x7FFF_FFFF

  datatype Frame =
    | ProtocolHeader(transportHigh: Byte, transportLow: Byte, major: Byte, minor: Byte)
    | Method(channel: UInt16, id: UInt32, fields: Struct)
    | Header(channel: UInt16, classId: UInt16, bodySize: UInt64, properties: ReceivedProperties, raw: Bytes)
    | Body(channel: UInt16, fragment: Bytes)
    | Heartbeat(channel: UInt16)

  /** The field lists the generator was run on, and the tuned maximal frame size. */
  datatype Config = Config(methods: map<UInt32, seq<FieldType>>, classes: map<UInt16, seq<FieldType>>, frameMax: nat)

  // ----- One complete frame -----

  datatype Outcome =
    | More                      // no complete frame yet
    | Got(frame: Frame)
    | Skipped                   // a complete frame of an unknown type
    | Fail(status: DataError)

  /** `amqp_decode_method` ignores whatever follows the last field. */
  function DecodeMethod(cfg: Config, channel: UInt16, id: UInt32, s: Bytes): Outcome
  {
    if id !in cfg.methods then Fail(UnknownMethod)
    else
      var m := RunDecode(DecodeProgram(cfg.methods[id], 0, 0), s, 0, map[]);
      if m.Bad? then Fail(m.status) else Got(Method(channel, id, m.value))
  }

  /** `amqp_decode_properties` reads the flag words before it looks at the class. */
  function DecodeHeader(cfg: Config, channel: UInt16, classId: UInt16, bodySize: UInt64, s: Bytes): Outcome
  {
    var f := DecodeFlags(s, 0, 0);
    if f.Bad? then Fail(f.status)
    else if classId !in cfg.classes then Fail(UnknownClass)
    else
      var p := DecodeProperties(cfg.classes[classId], s);
      if p.Bad? then Fail(p.status) else Got(Header(channel, classId, bodySize, p.value, s))
  }

  /** The payload; a method payload below 4 bytes or a header payload below 12 makes the C code read out of bounds. */
  function DecodePayload(cfg: Config, frameType: Byte, channel: UInt16, payload: Bytes): Outcome
  {
    if frameType == FRAME_METHOD then
      var id := DecodeNum(payload, 4);
      Pow256Values();
      if id.Bad? then Fail(Undefined) else DecodeMethod(cfg, channel, id.value, id.rest)
    else if frameType == FRAME_HEADER then
      if |payload| < 12 then Fail(Undefined)
      else
        Pow256Values();
        DecodeHeader(cfg, channel, DecodeNum(payload, 2).value, DecodeNum(payload[4..], 8).value, payload[12..])
    else if frameType == FRAME_BODY then Got(Body(channel, payload))
    else if frameType == FRAME_HEARTBEAT then Got(Heartbeat(channel))
    else Skipped
  }

  /** The channel field of a frame header. */
  function ChannelOf(raw: Bytes): UInt16
    requires |raw| >= HEADER_SIZE
  {
    Pow256Values();
    DecodeNum(raw[1..], 2).value
  }

  function SizeOf(raw: Bytes): UInt32
    requires |raw| >= HEADER_SIZE
  {
    Pow256Values();
    DecodeNum(raw[3..], 4).value
  }

  function DecodeFrame(cfg: Config, raw: Bytes): Outcome
    requires |raw| >= HEADER_SIZE + FOOTER_SIZE
  {
    if raw[|raw| - 1] != FRAME_END then Fail(BadAmqpData)
    else DecodePayload(cfg, raw[0], ChannelOf(raw), raw[HEADER_SIZE..|raw| - FOOTER_SIZE])
  }

  // ----- The reader -----

  datatype Phase = Initial | Idle | InHeader | InBody

  /** The bytes of the current frame received so far, and how many the phase wants. */
  datatype Reader = Reader(phase: Phase, received: Bytes, target: nat)

  const NEW_READER := Reader(Initial, [], 8)
  const IDLE_READER := Reader(Idle, [], HEADER_SIZE)

  /** What holds between calls until an error is returned. */
  ghost predicate ValidReader(cfg: Config, r: Reader)
  {
    && |r.received| < r.target
    && match r.phase
       case Initial => r.target == 8
       case Idle => r == IDLE_READER
       case InHeader => r.target == HEADER_SIZE
       case InBody => |r.received| >= HEADER_SIZE && r.target == SizeOf(r.received) + 8 <= cfg.frameMax
  }

  datatype Step = Step(reader: Reader, consumed: nat, outcome: Outcome)

  predicate IsProtocolHeader(raw: Bytes)
    requires |raw| >= 4
  {
    raw[0] == 65 && raw[1] == 77 && raw[2] == 81 && raw[3] == 80  // "AMQP"
  }

  function Complete(cfg: Config, raw: Bytes): Step
    requires |raw| >= HEADER_SIZE + FOOTER_SIZE
  {
    var o := DecodeFrame(cfg, raw);
    Step(if o.Fail? then Reader(InBody, raw, |raw|) else IDLE_READER, 0, o)
  }

  /** The frame buffer after a full header: from the initial phase only 7 of the 8 bytes are copied into the zeroed page. */
  function FrameBuffer(phase: Phase, got: Bytes): Bytes
    requires |got| >= HEADER_SIZE
  {
    if phase == Initial then got[..HEADER_SIZE] + [0] else got
  }

  predicate SizeAllowed(cfg: Config, buf: Bytes)
    requires |buf| >= HEADER_SIZE
  {
    SizeOf(buf) < INT32_MAX && SizeOf(buf) + HEADER_SIZE + FOOTER_SIZE <= cfg.frameMax
  }

  /** What happens once the phase has all the bytes it wants; `More` means that a payload is to follow. */
  function Filled(cfg: Config, phase: Phase, got: Bytes): Step
    requires |got| >= if phase == InHeader then HEADER_SIZE else 8
  {
    if phase == Initial && IsProtocolHeader(got) then
      Step(IDLE_READER, 0, Got(ProtocolHeader(got[4], got[5], got[6], got[7])))
    else if phase == InBody then Complete(cfg, got)
    else
      var buf := FrameBuffer(phase, got);
      if !SizeAllowed(cfg, buf) then Step(Reader(phase, got, |got|), 0, Fail(BadAmqpData))
      else
        var target := SizeOf(buf) + HEADER_SIZE + FOOTER_SIZE;
        if |buf| < target then Step(Reader(InBody, buf, target), 0, More) else Complete(cfg, buf)
  }

  function Took(s: Step, n: nat): Step
  {
    s.(consumed := s.consumed + n)
  }

  /** An idle reader is one that has received nothing of a header yet. */
  function Awake(r: Reader): Reader
  {
    if r.phase == Idle then r.(phase := InHeader) else r
  }

  /** Takes payload into a frame whose header is known, and decodes the frame once it is complete. */
  function TakePayload(cfg: Config, r: Reader, data: Bytes): Step
    requires |r.received| <= r.target && r.target >= 8
  {
    var n := Min(r.target - |r.received|, |data|);
    var raw := r.received + data[..n];
    if |raw| < r.target then Step(r.(received := raw), n, More) else Took(Complete(cfg, raw), n)
  }

  /** The switch of `amqp_handle_input`: a header that is now complete falls through to its payload. */
  function Dispatch(cfg: Config, phase: Phase, got: Bytes, data: Bytes): Step
    requires |got| >= if phase == InHeader then HEADER_SIZE else 8
    requires phase == InHeader ==> |got| == HEADER_SIZE
  {
    FilledValid(cfg, phase, got);
    var s := Filled(cfg, phase, got);
    if s.outcome != More then s else TakePayload(cfg, s.reader, data)
  }

  /** `amqp_handle_input` */
  function HandleInput(cfg: Config, r: Reader, data: Bytes): Step
    requires ValidReader(cfg, r)
  {
    if data == [] then Step(r, 0, More)
    else
      var n := Min(r.target - |r.received|, |data|);
      var got := r.received + data[..n];
      if |got| < r.target then Step(Awake(r).(received := got), n, More)
      else Took(Dispatch(cfg, Awake(r).phase, got, data[n..]), n)
  }

  /** A reader that is left waiting for a payload, or idle, is valid. */
  lemma FilledValid(cfg: Config, phase: Phase, got: Bytes)
    requires |got| >= if phase == InHeader then HEADER_SIZE else 8
    requires phase == InHeader ==> |got| == HEADER_SIZE
    ensures var s := Filled(cfg, phase, got);
            && s.consumed == 0
            && (!s.outcome.Fail? ==> ValidReader(cfg, s.reader))
            && (s.outcome == More ==> s.reader.phase == InBody && s.reader.target >= 8)
  {
  }

  lemma DecodedIsNotMore(cfg: Config, raw: Bytes)
    requires |raw| >= 8
    ensures DecodeFrame(cfg, raw) != More
  {
  }

  function Min(a: int, b: int): int
  {
    if b < a then b else a
  }

  // ----- The reference: one byte at a time -----

  function FeedByte(cfg: Config, r: Reader, b: Byte): Step
    requires ValidReader(cfg, r)
  {
    var got := r.received + [b];
    if |got| < r.target then Step(Awake(r).(received := got), 1, More)
    else Took(Filled(cfg, Awake(r).phase, got), 1)
  }

  /** Every step that does not fail leaves a valid reader. */
  lemma FeedByteValid(cfg: Config, r: Reader, b: Byte)
    requires ValidReader(cfg, r)
    ensures var s := FeedByte(cfg, r, b); s.consumed == 1 && (!s.outcome.Fail? ==> ValidReader(cfg, s.reader))
  {
    hide Filled;
    if r.phase == InBody {
      SizeStays(r.received, [b]);
    }
    if |r.received| + 1 == r.target {
      FilledValid(cfg, Awake(r).phase, r.received + [b]);
    }
  }

  /** The size field does not change when payload arrives. */
  lemma SizeStays(a: Bytes, b: Bytes)
    requires |a| >= HEADER_SIZE
    ensures SizeOf(a + b) == SizeOf(a) && ChannelOf(a + b) == ChannelOf(a)
  {
    assert (a + b)[3..][..4] == a[3..][..4];
    assert (a + b)[1..][..2] == a[1..][..2];
  }

  /** Feeds bytes until a frame completes, an error occurs or the bytes run out. */
  function RunBytes(cfg: Config, r: Reader, data: Bytes): Step
    requires ValidReader(cfg, r)
    decreases |data|
  {
    if data == [] then Step(r, 0, More)
    else
      FeedByteValid(cfg, r, data[0]);
      var s := FeedByte(cfg, r, data[0]);
      if s.outcome != More then s
      else
        var t := RunBytes(cfg, s.reader, data[1..]);
        t.(consumed := t.consumed + 1)
  }

  // ----- HandleInput refines the byte machine -----

  lemma {:induction false} RunShort(cfg: Config, r: Reader, data: Bytes)
    requires ValidReader(cfg, r) && 0 < |data| && |r.received| + |data| < r.target
    ensures RunBytes(cfg, r, data) == Step(Awake(r).(received := r.received + data), |data|, More)
    decreases |data|
  {
    hide Filled;
    var s := FeedByte(cfg, r, data[0]);
    assert s == Step(Awake(r).(received := r.received + [data[0]]), 1, More);
    FeedByteValid(cfg, r, data[0]);
    assert data == [data[0]] + data[1..];
    if |data| > 1 {
      RunShort(cfg, s.reader, data[1..]);
      assert s.reader.received + data[1..] == r.received + data;
    } else {
      assert data[1..] == [];
    }
  }

  lemma {:induction false} RunFull(cfg: Config, r: Reader, data: Bytes, n: nat)
    requires ValidReader(cfg, r) && n == r.target - |r.received| <= |data|
    ensures var s := Filled(cfg, Awake(r).phase, r.received + data[..n]);
            && (s.outcome != More ==> RunBytes(cfg, r, data) == Took(s, n))
            && (s.outcome == More ==> ValidReader(cfg, s.reader)
                                      && RunBytes(cfg, r, data) == Took(RunBytes(cfg, s.reader, data[n..]), n))
    decreases |data|
  {
    hide Filled;
    var s := FeedByte(cfg, r, data[0]);
    FeedByteValid(cfg, r, data[0]);
    if n == 1 {
      assert data[..1] == [data[0]];
      FilledValid(cfg, Awake(r).phase, r.received + data[..1]);
    } else {
      assert s == Step(Awake(r).(received := r.received + [data[0]]), 1, More);
      RunFull(cfg, s.reader, data[1..], n - 1);
      assert s.reader.received + data[1..][..n - 1] == r.received + data[..n];
      assert data[1..][n - 1..] == data[n..];
    }
  }

  /** Handling a chunk is feeding its bytes one by one. */
  lemma HandleInputIsRunBytes(cfg: Config, r: Reader, data: Bytes)
    requires ValidReader(cfg, r)
    ensures HandleInput(cfg, r, data) == RunBytes(cfg, r, data)
  {
    if data != [] {
      var n := r.target - |r.received|;
      if |data| < n {
        RunShort(cfg, r, data);
        assert data[..|data|] == data;
      } else {
        HandleFull(cfg, r, data, n);
      }
    }
  }

  lemma HandleFull(cfg: Config, r: Reader, data: Bytes, n: nat)
    requires ValidReader(cfg, r) && n == r.target - |r.received| <= |data|
    ensures HandleInput(cfg, r, data) == RunBytes(cfg, r, data)
  {
    hide Filled, TakePayload, RunBytes, SizeOf;
    RunFull(cfg, r, data, n);
    var s := Filled(cfg, Awake(r).phase, r.received + data[..n]);
    FilledValid(cfg, Awake(r).phase, r.received + data[..n]);
    if s.outcome == More {
      PayloadRun(cfg, s.reader, data[n..]);
    }
  }

  /** After a complete header, the rest of the chunk is payload. */
  lemma PayloadRun(cfg: Config, r: Reader, data: Bytes)
    requires ValidReader(cfg, r) && r.phase == InBody
    ensures r.target >= 8 && TakePayload(cfg, r, data) == RunBytes(cfg, r, data)
  {
    hide Complete;
    var m := r.target - |r.received|;
    if data == [] {
      assert r.received + data[..0] == r.received;
    } else if |data| < m {
      RunShort(cfg, r, data);
      assert data[..|data|] == data;
    } else {
      RunFull(cfg, r, data, m);
      FilledBody(cfg, r.received + data[..m]);
    }
  }

  lemma FilledBody(cfg: Config, got: Bytes)
    requires |got| >= 8
    ensures Filled(cfg, InBody, got) == Complete(cfg, got) && Complete(cfg, got).outcome != More
  {
  }

  /** Every call on non-empty data consumes at least one byte and never more than it was given. */
  lemma {:induction false} RunBytesProgress(cfg: Config, r: Reader, data: Bytes)
    requires ValidReader(cfg, r) && data != []
    ensures var s := RunBytes(cfg, r, data);
            && 1 <= s.consumed <= |data|
            && (!s.outcome.Fail? ==> ValidReader(cfg, s.reader))
            && (s.outcome == More ==> s.consumed == |data|)
    decreases |data|
  {
    hide FeedByte;
    var s := FeedByte(cfg, r, data[0]);
    FeedByteValid(cfg, r, data[0]);
    if s.outcome == More && |data| > 1 {
      RunBytesProgress(cfg, s.reader, data[1..]);
    }
  }

  // ----- Whole streams -----

  /** What a stream yields: the frames, the error that stopped the reader if any, and where the reader stands. */
  datatype Fed = Fed(reader: Reader, frames: seq<Frame>, error: Option<Status>)

  function Emitted(o: Outcome): seq<Frame>
  {
    if o.Got? then [o.frame] else []
  }

  function After(frames: seq<Frame>, f: Fed): Fed
  {
    f.(frames := frames + f.frames)
  }

  /** The reference: byte by byte. */
  function Feed(cfg: Config, r: Reader, data: Bytes): Fed
    requires ValidReader(cfg, r)
    decreases |data|
  {
    if data == [] then Fed(r, [], None)
    else
      FeedByteValid(cfg, r, data[0]);
      var s := FeedByte(cfg, r, data[0]);
      if s.outcome.Fail? then Fed(s.reader, [], Some(s.outcome.status))
      else After(Emitted(s.outcome), Feed(cfg, s.reader, data[1..]))
  }

  lemma {:induction false} FeedValid(cfg: Config, r: Reader, data: Bytes)
    requires ValidReader(cfg, r)
    ensures var f := Feed(cfg, r, data); f.error.None? ==> ValidReader(cfg, f.reader)
    decreases |data|
  {
    hide FeedByte;
    if data != [] {
      FeedByteValid(cfg, r, data[0]);
      var s := FeedByte(cfg, r, data[0]);
      if !s.outcome.Fail? {
        FeedValid(cfg, s.reader, data[1..]);
      }
    }
  }

  /** The loop around `consume_one_frame`: call `amqp_handle_input` until the buffer is used up. */
  function Consume(cfg: Config, r: Reader, data: Bytes): Fed
    requires ValidReader(cfg, r)
    decreases |data|
  {
    if data == [] then Fed(r, [], None)
    else
      HandleInputIsRunBytes(cfg, r, data);
      RunBytesProgress(cfg, r, data);
      var s := HandleInput(cfg, r, data);
      if s.outcome.Fail? then Fed(s.reader, [], Some(s.outcome.status))
      else After(Emitted(s.outcome), Consume(cfg, s.reader, data[s.consumed..]))
  }

  lemma {:induction false} FeedIsRunThenFeed(cfg: Config, r: Reader, data: Bytes)
    requires ValidReader(cfg, r) && data != []
    ensures var s := RunBytes(cfg, r, data);
            && s.consumed <= |data|
            && (!s.outcome.Fail? ==> ValidReader(cfg, s.reader))
            && Feed(cfg, r, data) ==
               if s.outcome.Fail? then Fed(s.reader, [], Some(s.outcome.status))
               else After(Emitted(s.outcome), Feed(cfg, s.reader, data[s.consumed..]))
    decreases |data|
  {
    hide FeedByte;
    RunBytesProgress(cfg, r, data);
    var s := FeedByte(cfg, r, data[0]);
    FeedByteValid(cfg, r, data[0]);
    if s.outcome == More {
      if |data| > 1 {
        FeedIsRunThenFeed(cfg, s.reader, data[1..]);
        var t := RunBytes(cfg, s.reader, data[1..]);
        assert data[1..][t.consumed..] == data[t.consumed + 1..];
      } else {
        assert data[1..] == [];
      }
    }
  }

  /** Calling `amqp_handle_input` on a stream gives what feeding it byte by byte gives. */
  lemma {:induction false} ConsumeIsFeed(cfg: Config, r: Reader, data: Bytes)
    requires ValidReader(cfg, r)
    ensures Consume(cfg, r, data) == Feed(cfg, r, data)
    decreases |data|
  {
    if data != [] {
      HandleInputIsRunBytes(cfg, r, data);
      RunBytesProgress(cfg, r, data);
      FeedIsRunThenFeed(cfg, r, data);
      var s := HandleInput(cfg, r, data);
      if !s.outcome.Fail? {
        ConsumeIsFeed(cfg, s.reader, data[s.consumed..]);
      }
    }
  }

  lemma {:induction false} FeedConcat(cfg: Config, r: Reader, a: Bytes, b: Bytes)
    requires ValidReader(cfg, r)
    ensures var f := Feed(cfg, r, a);
            && (f.error.Some? ==> Feed(cfg, r, a + b) == f)
            && (f.error.None? ==> ValidReader(cfg, f.reader) && Feed(cfg, r, a + b) == After(f.frames, Feed(cfg, f.reader, b)))
    decreases |a|
  {
    hide FeedByte;
    FeedValid(cfg, r, a);
    if a == [] {
      assert a + b == b;
      assert [] + Feed(cfg, r, b).frames == Feed(cfg, r, b).frames;
    } else {
      assert (a + b)[1..] == a[1..] + b;
      FeedByteValid(cfg, r, a[0]);
      var s := FeedByte(cfg, r, a[0]);
      if !s.outcome.Fail? {
        FeedConcat(cfg, s.reader, a[1..], b);
        var f := Feed(cfg, s.reader, a[1..]);
        if f.error.None? {
          Reassociate(Emitted(s.outcome), f.frames, Feed(cfg, f.reader, b).frames);
        }
      }
    }
  }

  function Flatten(chunks: seq<Bytes>): Bytes
  {
    if chunks == [] then [] else chunks[0] + Flatten(chunks[1..])
  }

  /** The stream arrives in chunks, each consumed before the next is received. */
  function ConsumeChunks(cfg: Config, r: Reader, chunks: seq<Bytes>): Fed
    requires ValidReader(cfg, r)
    decreases |chunks|
  {
    if chunks == [] then Fed(r, [], None)
    else
      ConsumeIsFeed(cfg, r, chunks[0]);
      FeedValid(cfg, r, chunks[0]);
      var f := Consume(cfg, r, chunks[0]);
      if f.error.Some? then f else After(f.frames, ConsumeChunks(cfg, f.reader, chunks[1..]))
  }

  /**
    Chunk independence: from every valid reader, a byte stream split in any way gives the same frames,
    the same first error and the same final reader as the stream fed whole.
   */
  lemma {:induction false} ChunkIndependence(cfg: Config, r: Reader, chunks: seq<Bytes>)
    requires ValidReader(cfg, r)
    ensures ConsumeChunks(cfg, r, chunks) == Consume(cfg, r, Flatten(chunks))
    decreases |chunks|
  {
    if chunks != [] {
      var rest := Flatten(chunks[1..]);
      var f := Consume(cfg, r, chunks[0]);
      ConsumeIsFeed(cfg, r, chunks[0]);
      ConsumeIsFeed(cfg, r, chunks[0] + rest);
      FeedConcat(cfg, r, chunks[0], rest);
      if f.error.None? {
        ChunkIndependence(cfg, f.reader, chunks[1..]);
        ConsumeIsFeed(cfg, f.reader, rest);
      }
    }
  }

  // ----- The first frame of a connection -----

  /** Same frames and same first error; same reader when there is none. */
  predicate SameRun(f: Fed, g: Fed)
  {
    f.frames == g.frames && f.error == g.error && (f.error.None? ==> f.reader == g.reader)
  }

  /** Exactly the bytes the phase wants. */
  lemma FeedFull(cfg: Config, r: Reader, data: Bytes)
    requires ValidReader(cfg, r) && |r.received| + |data| == r.target
    ensures var s := Filled(cfg, Awake(r).phase, r.received + data);
            Feed(cfg, r, data) ==
            if s.outcome.Fail? then Fed(s.reader, [], Some(s.outcome.status))
            else Fed(s.reader, Emitted(s.outcome), None)
  {
    hide Filled, FeedByte;
    assert data[..|data|] == data && data[|data|..] == [];
    RunFull(cfg, r, data, |data|);
    FilledValid(cfg, Awake(r).phase, r.received + data);
    FeedIsRunThenFeed(cfg, r, data);
    var s := Filled(cfg, Awake(r).phase, r.received + data);
    assert Emitted(s.outcome) + [] == Emitted(s.outcome);
  }

  /** One more byte that does not complete the frame. */
  lemma FeedOne(cfg: Config, r: Reader, b: Byte)
    requires ValidReader(cfg, r) && r.phase == InBody && |r.received| + 1 < r.target
    ensures Feed(cfg, r, [b]) == Fed(r.(received := r.received + [b]), [], None)
  {
    hide Filled;
    FeedByteValid(cfg, r, b);
    var f := Feed(cfg, FeedByte(cfg, r, b).reader, []);
    assert [b][1..] == [] && f.frames == [] && [] + f.frames == [];
  }

  lemma EightBytes(cfg: Config, d: Bytes)
    requires |d| == 8 && !IsProtocolHeader(d)
    ensures SameRun(Feed(cfg, NEW_READER, d), Feed(cfg, IDLE_READER, d[..HEADER_SIZE] + [0]))
  {
    hide Feed, DecodeFrame, ChannelOf, SizeOf;
    var head := d[..HEADER_SIZE];
    var e := head + [0];
    assert [] + d == d && [] + head == head;
    SizeStays(head, [0]);
    FeedFull(cfg, NEW_READER, d);
    FeedFull(cfg, IDLE_READER, head);
    FeedConcat(cfg, IDLE_READER, head, [0]);
    if SizeAllowed(cfg, head) {
      var r := Reader(InBody, head, SizeOf(head) + 8);
      FilledValid(cfg, InHeader, head);
      if SizeOf(head) > 0 {
        FeedOne(cfg, r, 0);
      } else {
        FeedFull(cfg, r, [0]);
        FilledBody(cfg, e);
      }
    }
  }

  /**
    A connection whose first bytes are not a protocol header reads them as an idle reader would read
    them with byte 7 replaced by zero: the reader waits for 8 bytes but keeps only 7 of them.
   */
  lemma FirstFrameLosesByteSeven(cfg: Config, d: Bytes)
    requires |d| >= 8 && !IsProtocolHeader(d)
    ensures SameRun(Feed(cfg, NEW_READER, d), Feed(cfg, IDLE_READER, d[HEADER_SIZE := 0]))
  {
    var e, rest := d[..HEADER_SIZE] + [0], d[8..];
    assert d == d[..8] + rest && d[HEADER_SIZE := 0] == e + rest && d[..8][..HEADER_SIZE] == d[..HEADER_SIZE];
    EightBytes(cfg, d[..8]);
    FeedConcat(cfg, NEW_READER, d[..8], rest);
    FeedConcat(cfg, IDLE_READER, e, rest);
  }
}
