/**
  The frame writer `amqp_frame_to_bytes` and its relation to the reader: whatever the writer produces,
  for any list of frames and in any chunks, the reader returns as exactly those frames.
 */
module FrameCodec {
  import opened Wire
  import opened Fields
  import opened Generator
  import opened Properties
  import opened Framing

  /** A frame handed to the writer. */
  datatype Outgoing =
    | SendMethod(channel: UInt16, id: UInt32, values: seq<Value>)
    | SendHeader(channel: UInt16, classId: UInt16, bodySize: UInt64, properties: PropertySet)
    | SendBody(channel: UInt16, fragment: Bytes)
    | SendHeartbeat(channel: UInt16)
    | SendOther(channel: UInt16, frameType: OtherType)

  type OtherType = b: Byte | b != FRAME_METHOD && b != FRAME_HEADER && b != FRAME_BODY && b != FRAME_HEARTBEAT witness 0

  function TypeOf(f: Outgoing): Byte
  {
    match f
    case SendMethod(_, _, _) => FRAME_METHOD
    case SendHeader(_, _, _, _) => FRAME_HEADER
    case SendBody(_, _) => FRAME_BODY
    case SendHeartbeat(_) => FRAME_HEARTBEAT
    case SendOther(_, t) => t
  }

  /** What the C types and the generator guarantee of the tables in use. */
  ghost predicate ValidConfig(cfg: Config)
  {
    && cfg.frameMax <= INT32_MAX
    && forall c :: c in cfg.classes ==> |cfg.classes[c]| <= 30
  }

  /** Structs have the types of their fields, and a body fits the buffer: the writer does not check either. */
  ghost predicate Sendable(cfg: Config, f: Outgoing)
  {
    match f
    case SendMethod(_, id, vs) => id in cfg.methods ==> Typed(cfg.methods[id], vs)
    case SendHeader(_, c, _, p) => c in cfg.classes ==> WellTyped(cfg.classes[c], p)
    case SendBody(_, b) => |b| + 8 <= cfg.frameMax
    case _ => true
  }

  ghost predicate Intact(cfg: Config, f: Outgoing)
    requires Sendable(cfg, f)
  {
    match f
    case SendMethod(_, id, vs) => id in cfg.methods ==> AllRestorable(cfg.methods[id], vs)
    case SendHeader(_, c, _, p) => c in cfg.classes ==> PropertiesRestorable(cfg.classes[c], p)
    case _ => true
  }

  /** The encoded properties, or why there are none. */
  function PropertiesOf(cfg: Config, classId: UInt16, p: PropertySet, cap: int): Encoded
    requires classId in cfg.classes ==> WellTyped(cfg.classes[classId], p)
  {
    if |FlagWords(p.flags)| > cap then Failed(BadAmqpData)
    else if classId !in cfg.classes then Failed(UnknownClass)
    else EncodeProperties(cfg.classes[classId], p, cap)
  }

  /** The payload the writer puts into a buffer of `frameMax` bytes. */
  function Payload(cfg: Config, f: Outgoing): Encoded
    requires Sendable(cfg, f) && cfg.frameMax >= 20
  {
    match f
    case SendMethod(_, id, vs) =>
      if id !in cfg.methods then Failed(UnknownMethod)
      else
        var r := RunEncode(EncodeProgram(cfg.methods[id], 0, 0), vs, cfg.frameMax - 12, [], 0);
        if r.Failed? then r else Written(Be(4, id) + r.bytes)
    case SendHeader(_, c, size, p) =>
      var r := PropertiesOf(cfg, c, p, cfg.frameMax - 20);
      if r.Failed? then r else Written(Be(2, c) + Be(2, 0) + Be(8, size) + r.bytes)
    case SendBody(_, b) => Written(b)
    case SendHeartbeat(_) => Written([])
    case SendOther(_, _) => Failed(InvalidParameter)
  }

  /** Type, channel, size, payload, end marker. */
  function FrameBytes(frameType: Byte, channel: UInt16, payload: Bytes): (r: Bytes)
    ensures |r| == |payload| + 8
  {
    [frameType] + Be(2, channel) + Be(4, |payload|) + payload + [FRAME_END]
  }

  function EncodeFrame(cfg: Config, f: Outgoing): Encoded
    requires Sendable(cfg, f) && cfg.frameMax >= 20
  {
    var p := Payload(cfg, f);
    if p.Failed? then p else Written(FrameBytes(TypeOf(f), f.channel, p.bytes))
  }

  /** How the frame looks to the receiver. */
  function Arrival(cfg: Config, f: Outgoing): Frame
    requires Sendable(cfg, f) && cfg.frameMax >= 20 && EncodeFrame(cfg, f).Written?
  {
    match f
    case SendMethod(ch, id, vs) => Method(ch, id, StructOf(vs, |vs|))
    case SendHeader(ch, c, size, p) =>
      Header(ch, c, size, ReceivedProperties(Received(p.flags), PresentFields(cfg.classes[c], p, |cfg.classes[c]|)),
             PropertiesOf(cfg, c, p, cfg.frameMax - 20).bytes)
    case SendBody(ch, b) => Body(ch, b)
    case SendHeartbeat(ch) => Heartbeat(ch)
  }

  // ----- Writing in place -----

  /** `amqp_frame_to_bytes`: the size field is written once the payload is in place. */
  method FrameToBytes(cfg: Config, f: Outgoing, buf: array<Byte>) returns (st: Status, len: nat)
    requires Sendable(cfg, f) && cfg.frameMax >= 20 && buf.Length == cfg.frameMax
    modifies buf
    ensures st == OK <==> EncodeFrame(cfg, f).Written?
    ensures st == OK ==> len <= buf.Length && EncodeFrame(cfg, f) == Written(buf[..len])
    ensures st != OK ==> EncodeFrame(cfg, f) == Failed(st)
  {
    hide Splice, Be, Payload;
    len := 0;
    ghost var s0 := buf[..];
    CopyIn(buf, 0, [TypeOf(f)]);
    CopyIn(buf, 1, Be(2, f.channel));
    var p := Payload(cfg, f);
    if p.Failed? {
      PayloadFailureIsError(cfg, f);
      return p.status, len;
    }
    PayloadFits(cfg, f);
    var n := |p.bytes|;
    CopyIn(buf, HEADER_SIZE, p.bytes);
    CopyIn(buf, 3, Be(4, n));
    CopyIn(buf, HEADER_SIZE + n, [FRAME_END]);
    WriteOrder(s0, [TypeOf(f)], Be(2, f.channel), Be(4, n), p.bytes);
    return OK, n + 8;
  }

  /** The header fields, the payload, the size in front of it and the end marker add up to the frame. */
  lemma WriteOrder(s0: Bytes, t: Bytes, ch: Bytes, size: Bytes, payload: Bytes)
    requires |t| == 1 && |ch| == 2 && |size| == 4 && |payload| + 8 <= |s0|
    ensures var s2 := Splice(Splice(s0, 0, t), 1, ch);
            var s4 := Splice(Splice(s2, 7, payload), 3, size);
            Splice(s4, 7 + |payload|, [FRAME_END])[..|payload| + 8] == t + ch + size + payload + [FRAME_END]
  {
    SpliceInOrder(s0, 0, t, ch);
    var s2 := Splice(s0, 0, t + ch);
    SpliceBackPatch(s2, 3, size, payload);
    SpliceInOrder(s0, 0, t + ch, size + payload);
    SpliceInOrder(s0, 0, t + ch + (size + payload), [FRAME_END]);
    assert t + ch + (size + payload) + [FRAME_END] == t + ch + size + payload + [FRAME_END];
  }

  lemma PayloadFits(cfg: Config, f: Outgoing)
    requires Sendable(cfg, f) && cfg.frameMax >= 20 && Payload(cfg, f).Written?
    ensures |Payload(cfg, f).bytes| + 8 <= cfg.frameMax
  {
    hide RunEncode, Be, FlagWords, Layout, EncodeProgram, FieldBytes, PutOutcome;
    match f
    case SendMethod(_, id, vs) => EncoderWritesLayout(cfg.methods[id], vs, 0, [], cfg.frameMax - 12, [], 0);
    case SendHeader(_, c, _, p) => FieldsFit(cfg.classes[c], p, 0, cfg.frameMax - 20, FlagWords(p.flags));
    case _ =>
  }

  lemma PayloadFailureIsError(cfg: Config, f: Outgoing)
    requires Sendable(cfg, f) && cfg.frameMax >= 20 && Payload(cfg, f).Failed?
    ensures Payload(cfg, f).status != OK
  {
    match f
    case SendMethod(_, id, vs) =>
      if id in cfg.methods {
        RunFailureIsError(EncodeProgram(cfg.methods[id], 0, 0), vs, cfg.frameMax - 12, [], 0);
      }
    case SendHeader(_, c, _, p) =>
      if |FlagWords(p.flags)| <= cfg.frameMax - 20 && c in cfg.classes {
        FieldsFailureIsError(cfg.classes[c], p, 0, cfg.frameMax - 20, FlagWords(p.flags));
      }
    case _ =>
  }

  lemma FrameFailureIsError(cfg: Config, f: Outgoing)
    requires Sendable(cfg, f) && cfg.frameMax >= 20
    ensures EncodeFrame(cfg, f).Failed? ==> EncodeFrame(cfg, f).status != OK
  {
    hide Payload;
    if EncodeFrame(cfg, f).Failed? {
      PayloadFailureIsError(cfg, f);
    }
  }

  lemma {:induction false} RunFailureIsError(p: seq<EncodeOp>, vs: seq<Value>, cap: nat, out: Bytes, bits: nat)
    ensures RunEncode(p, vs, cap, out, bits) != Failed(OK)
    decreases p
  {
    hide SetBit, FieldBytes, PutOutcome;
    if p != [] {
      match p[0]
      case ClearBits => RunFailureIsError(p[1..], vs, cap, out, 0);
      case OrBit(f, k) =>
        if f < |vs| && vs[f].FlagValue? {
          RunFailureIsError(p[1..], vs, cap, out, if vs[f].flag then SetBit(bits, k) else bits);
        }
      case PutBits => RunFailureIsError(p[1..], vs, cap, out + [bits % 256], bits);
      case Put(f, ty) =>
        if f < |vs| && !ty.Flag? && HasType(ty, vs[f]) {
          RunFailureIsError(p[1..], vs, cap, out + FieldBytes(ty, vs[f]), bits);
        }
    }
  }

  lemma {:induction false} FieldsFailureIsError(fs: seq<FieldType>, p: PropertySet, i: nat, cap: int, out: Bytes)
    requires WellTyped(fs, p) && i <= |fs|
    ensures PutFields(fs, p, i, cap, out) != Failed(OK)
    decreases |fs| - i
  {
    hide FieldBytes, PutOutcome, Present;
    if i < |fs| {
      var b := Present(p.flags, i);
      FieldsFailureIsError(fs, p, i + 1, cap, if b then out + FieldBytes(fs[i], p.fields[i]) else out);
    }
  }

  lemma {:induction false} FieldsFit(fs: seq<FieldType>, p: PropertySet, i: nat, cap: int, out: Bytes)
    requires WellTyped(fs, p) && i <= |fs| && |out| <= cap && PutFields(fs, p, i, cap, out).Written?
    ensures |PutFields(fs, p, i, cap, out).bytes| <= cap
    decreases |fs| - i
  {
    hide FieldBytes, PutOutcome, Present;
    if i < |fs| {
      if Present(p.flags, i) {
        PutFits(fs[i], p.fields[i], cap - |out|);
        FieldsFit(fs, p, i + 1, cap, out + FieldBytes(fs[i], p.fields[i]));
      } else {
        FieldsFit(fs, p, i + 1, cap, out);
      }
    }
  }

  // ----- Reading back -----

  /** The parts of a written frame, where the reader looks for them. */
  lemma FrameParts(t: Byte, ch: UInt16, payload: Bytes)
    requires |payload| < INT32_MAX
    ensures var raw := FrameBytes(t, ch, payload);
            && raw[0] == t && raw[|raw| - 1] == FRAME_END
            && ChannelOf(raw) == ch && SizeOf(raw) == |payload| && SizeOf(raw[..HEADER_SIZE]) == |payload|
            && raw[HEADER_SIZE..|raw| - FOOTER_SIZE] == payload
  {
    hide Be, Num, DecodeNum;
    Pow256Values();
    var raw := FrameBytes(t, ch, payload);
    var tail := Be(4, |payload|) + (payload + [FRAME_END]);
    assert raw[1..] == Be(2, ch) + tail;
    DecodeNumOf(2, ch, tail);
    assert raw[3..] == Be(4, |payload|) + (payload + [FRAME_END]);
    DecodeNumOf(4, |payload|, payload + [FRAME_END]);
    assert raw[..HEADER_SIZE][3..] == Be(4, |payload|) + [];
    DecodeNumOf(4, |payload|, []);
  }

  lemma MethodArrives(cfg: Config, ch: UInt16, id: UInt32, vs: seq<Value>)
    requires id in cfg.methods && Typed(cfg.methods[id], vs) && AllRestorable(cfg.methods[id], vs)
    requires cfg.frameMax >= 20 && Payload(cfg, SendMethod(ch, id, vs)).Written?
    ensures DecodePayload(cfg, FRAME_METHOD, ch, Payload(cfg, SendMethod(ch, id, vs)).bytes) ==
            Got(Method(ch, id, StructOf(vs, |vs|)))
  {
    hide Be, Num, DecodeNum, RunEncode, RunDecode;
    Pow256Values();
    var fs := cfg.methods[id];
    var bytes := RunEncode(EncodeProgram(fs, 0, 0), vs, cfg.frameMax - 12, [], 0).bytes;
    DecodeNumOf(4, id, bytes);
    GeneratedCodecsAreInverse(fs, vs, cfg.frameMax - 12, []);
    assert bytes + [] == bytes;
  }

  lemma HeaderArrives(cfg: Config, ch: UInt16, c: UInt16, size: UInt64, p: PropertySet)
    requires c in cfg.classes && |cfg.classes[c]| <= 30 && WellTyped(cfg.classes[c], p)
    requires PropertiesRestorable(cfg.classes[c], p)
    requires cfg.frameMax >= 20 && Payload(cfg, SendHeader(ch, c, size, p)).Written?
    ensures DecodePayload(cfg, FRAME_HEADER, ch, Payload(cfg, SendHeader(ch, c, size, p)).bytes) ==
            Got(Arrival(cfg, SendHeader(ch, c, size, p)))
  {
    hide Be, Num, DecodeNum, DecodeFlags, EncodeProperties, GetFields;
    Pow256Values();
    var fs := cfg.classes[c];
    var bytes := PropertiesOf(cfg, c, p, cfg.frameMax - 20).bytes;
    var payload := Payload(cfg, SendHeader(ch, c, size, p)).bytes;
    assert payload == Be(2, c) + (Be(2, 0) + Be(8, size) + bytes);
    DecodeNumOf(2, c, Be(2, 0) + Be(8, size) + bytes);
    assert payload[4..] == Be(8, size) + bytes;
    DecodeNumOf(8, size, bytes);
    assert payload[12..] == bytes;
    PropertiesRoundTrip(fs, p, cfg.frameMax - 20, []);
    assert bytes + [] == bytes;
  }

  lemma FrameArrives(cfg: Config, f: Outgoing)
    requires ValidConfig(cfg) && Sendable(cfg, f) && Intact(cfg, f) && cfg.frameMax >= 20
    requires EncodeFrame(cfg, f).Written?
    ensures DecodeFrame(cfg, EncodeFrame(cfg, f).bytes) == Got(Arrival(cfg, f))
    ensures SizeAllowed(cfg, EncodeFrame(cfg, f).bytes[..HEADER_SIZE])
    ensures SizeOf(EncodeFrame(cfg, f).bytes[..HEADER_SIZE]) + 8 == |EncodeFrame(cfg, f).bytes|
  {
    hide Payload, FrameBytes, DecodePayload, ChannelOf, SizeOf;
    var payload := Payload(cfg, f).bytes;
    PayloadFits(cfg, f);
    FrameParts(TypeOf(f), f.channel, payload);
    PayloadArrives(cfg, f);
  }

  lemma PayloadArrives(cfg: Config, f: Outgoing)
    requires ValidConfig(cfg) && Sendable(cfg, f) && Intact(cfg, f) && cfg.frameMax >= 20
    requires Payload(cfg, f).Written?
    ensures DecodePayload(cfg, TypeOf(f), f.channel, Payload(cfg, f).bytes) == Got(Arrival(cfg, f))
  {
    match f
    case SendMethod(ch, id, vs) => MethodArrives(cfg, ch, id, vs);
    case SendHeader(ch, c, size, p) => HeaderArrives(cfg, ch, c, size, p);
    case SendBody(_, _) =>
    case SendHeartbeat(_) =>
  }

  /** From an idle reader, a written frame followed by anything yields the frame and an idle reader in front of the rest. */
  lemma FrameThenRest(cfg: Config, f: Outgoing, rest: Bytes)
    requires ValidConfig(cfg) && Sendable(cfg, f) && Intact(cfg, f) && cfg.frameMax >= 20
    requires EncodeFrame(cfg, f).Written?
    ensures Feed(cfg, IDLE_READER, EncodeFrame(cfg, f).bytes + rest) ==
            After([Arrival(cfg, f)], Feed(cfg, IDLE_READER, rest))
  {
    hide EncodeFrame, DecodeFrame, SizeAllowed, SizeOf, Feed;
    var raw := EncodeFrame(cfg, f).bytes;
    FrameArrives(cfg, f);
    FrameIsLong(cfg, f);
    WholeFrame(cfg, raw);
    FeedConcat(cfg, IDLE_READER, raw, rest);
  }

  /** From an idle reader, as many bytes as their header announces are decoded as one frame. */
  lemma WholeFrame(cfg: Config, raw: Bytes)
    requires |raw| >= 8 && SizeAllowed(cfg, raw[..HEADER_SIZE]) && SizeOf(raw[..HEADER_SIZE]) + 8 == |raw|
    ensures var o := DecodeFrame(cfg, raw);
            Feed(cfg, IDLE_READER, raw) ==
            if o.Fail? then Fed(Reader(InBody, raw, |raw|), [], Some(o.status)) else Fed(IDLE_READER, Emitted(o), None)
  {
    hide DecodeFrame, SizeAllowed, SizeOf, Feed;
    var head, body := raw[..HEADER_SIZE], raw[HEADER_SIZE..];
    assert raw == head + body && [] + head == head;
    FeedFull(cfg, IDLE_READER, head);
    FilledValid(cfg, InHeader, head);
    FeedConcat(cfg, IDLE_READER, head, body);
    FeedFull(cfg, Reader(InBody, head, |raw|), body);
    FilledBody(cfg, raw);
  }

  lemma FrameIsLong(cfg: Config, f: Outgoing)
    requires Sendable(cfg, f) && cfg.frameMax >= 20 && EncodeFrame(cfg, f).Written?
    ensures |EncodeFrame(cfg, f).bytes| >= 8
  {
  }

  // ----- Main result -----

  /** The frame can be written, and comes back as it was. */
  ghost predicate Transmits(cfg: Config, f: Outgoing)
  {
    cfg.frameMax >= 20 && Sendable(cfg, f) && Intact(cfg, f) && EncodeFrame(cfg, f).Written?
  }

  ghost predicate AllSendable(cfg: Config, fs: seq<Outgoing>)
  {
    forall i :: 0 <= i < |fs| ==> Transmits(cfg, fs[i])
  }

  /** The bytes of a list of frames, sent one after the other. */
  function StreamOf(cfg: Config, fs: seq<Outgoing>): Bytes
    requires AllSendable(cfg, fs)
  {
    if fs == [] then [] else EncodeFrame(cfg, fs[0]).bytes + StreamOf(cfg, fs[1..])
  }

  function Arrivals(cfg: Config, fs: seq<Outgoing>): seq<Frame>
    requires AllSendable(cfg, fs)
  {
    if fs == [] then [] else [Arrival(cfg, fs[0])] + Arrivals(cfg, fs[1..])
  }

  lemma {:induction false} StreamArrives(cfg: Config, fs: seq<Outgoing>)
    requires ValidConfig(cfg) && AllSendable(cfg, fs)
    ensures Feed(cfg, IDLE_READER, StreamOf(cfg, fs)) == Fed(IDLE_READER, Arrivals(cfg, fs), None)
    decreases fs
  {
    hide EncodeFrame, Arrival, Sendable, Intact;
    if fs != [] {
      FrameThenRest(cfg, fs[0], StreamOf(cfg, fs[1..]));
      StreamArrives(cfg, fs[1..]);
    }
  }

  /**
    Frame round trip: for every list of method, header, body and heartbeat frames that the writer
    encodes within the frame size, feeding the concatenated bytes to an idle reader in any chunks
    yields exactly those frames, without error, and leaves the reader idle.
   */
  lemma FramesRoundTrip(cfg: Config, fs: seq<Outgoing>, chunks: seq<Bytes>)
    requires ValidConfig(cfg) && AllSendable(cfg, fs) && Flatten(chunks) == StreamOf(cfg, fs)
    ensures ConsumeChunks(cfg, IDLE_READER, chunks) == Fed(IDLE_READER, Arrivals(cfg, fs), None)
  {
    ChunkIndependence(cfg, IDLE_READER, chunks);
    ConsumeIsFeed(cfg, IDLE_READER, Flatten(chunks));
    StreamArrives(cfg, fs);
  }

  /**
    The first frame of a connection: it arrives if and only if its byte 7 is zero. That is the first byte
    of the payload, or the end marker if there is none, so a heartbeat or an empty body never arrives.
   */
  lemma FirstFrameArrives(cfg: Config, f: Outgoing)
    requires ValidConfig(cfg) && Sendable(cfg, f) && Intact(cfg, f) && cfg.frameMax >= 20
    requires EncodeFrame(cfg, f).Written?
    ensures var bytes := EncodeFrame(cfg, f).bytes;
            |bytes| >= 8 && (bytes[7] == 0 <==> Feed(cfg, NEW_READER, bytes) == Fed(IDLE_READER, [Arrival(cfg, f)], None))
  {
    hide EncodeFrame, DecodeFrame, SizeAllowed, SizeOf, Feed, Arrival;
    NoProtocolHeader(cfg, f);
    var d := EncodeFrame(cfg, f).bytes;
    var e := d[HEADER_SIZE := 0];
    FrameArrives(cfg, f);
    FirstFrameLosesByteSeven(cfg, d);
    assert e[..HEADER_SIZE] == d[..HEADER_SIZE];
    WholeFrame(cfg, e);
    if d[7] == 0 {
      assert e == d;
    } else {
      ZeroedIsOther(cfg, f);
    }
  }

  /** And so for a whole stream, in any chunks: it arrives on a new connection if and only if its byte 7 is zero. */
  lemma NewConnectionRoundTrip(cfg: Config, fs: seq<Outgoing>, chunks: seq<Bytes>)
    requires ValidConfig(cfg) && fs != [] && AllSendable(cfg, fs) && Flatten(chunks) == StreamOf(cfg, fs)
    ensures |StreamOf(cfg, fs)| >= 8
    ensures StreamOf(cfg, fs)[7] == 0 <==> ConsumeChunks(cfg, NEW_READER, chunks) == Fed(IDLE_READER, Arrivals(cfg, fs), None)
  {
    hide EncodeFrame, DecodeFrame, SizeAllowed, SizeOf, Feed, Arrival, Sendable, Intact, Consume, ConsumeChunks;
    var f, d, s := fs[0], EncodeFrame(cfg, fs[0]).bytes, StreamOf(cfg, fs);
    var later := StreamOf(cfg, fs[1..]);
    ChunkIndependence(cfg, NEW_READER, chunks);
    ConsumeIsFeed(cfg, NEW_READER, s);
    NoProtocolHeader(cfg, f);
    StreamArrives(cfg, fs);
    FirstFrameLosesByteSeven(cfg, s);
    if s[7] == 0 {
      assert s[HEADER_SIZE := 0] == s;
    } else {
      var e := d[HEADER_SIZE := 0];
      assert s[HEADER_SIZE := 0] == e + later;
      FrameArrives(cfg, f);
      assert e[..HEADER_SIZE] == d[..HEADER_SIZE];
      WholeFrame(cfg, e);
      ZeroedIsOther(cfg, f);
      FeedConcat(cfg, IDLE_READER, e, later);
      assert Arrivals(cfg, fs)[0] == Arrival(cfg, f);
      var o := DecodeFrame(cfg, e);
      if o.Got? {
        assert Feed(cfg, IDLE_READER, e + later).frames[0] == o.frame;
      }
    }
  }

  lemma NoProtocolHeader(cfg: Config, f: Outgoing)
    requires Sendable(cfg, f) && cfg.frameMax >= 20 && EncodeFrame(cfg, f).Written?
    ensures |EncodeFrame(cfg, f).bytes| >= 8 && !IsProtocolHeader(EncodeFrame(cfg, f).bytes)
  {
    hide Be, RunEncode, PropertiesOf;
    assert EncodeFrame(cfg, f).bytes[0] == TypeOf(f);
  }

  /** With its byte 7 zeroed, a frame is refused or read as another one. */
  lemma ZeroedIsOther(cfg: Config, f: Outgoing)
    requires ValidConfig(cfg) && Sendable(cfg, f) && cfg.frameMax >= 20 && EncodeFrame(cfg, f).Written?
    requires |EncodeFrame(cfg, f).bytes| >= 8 && EncodeFrame(cfg, f).bytes[7] != 0
    ensures var o := DecodeFrame(cfg, EncodeFrame(cfg, f).bytes[7 := 0]);
            o.Fail? || (o.Got? && o.frame != Arrival(cfg, f))
  {
    hide Payload, Be, DecodePayload, ChannelOf, SizeOf, Arrival;
    var payload := Payload(cfg, f).bytes;
    var d := EncodeFrame(cfg, f).bytes;
    PayloadFits(cfg, f);
    if payload != [] {
      var zeroed := payload[0 := 0];
      assert d[7] == payload[0];
      assert d[7 := 0] == FrameBytes(TypeOf(f), f.channel, zeroed);
      FrameParts(TypeOf(f), f.channel, zeroed);
      ZeroedPayloadIsOther(cfg, f);
    }
  }

  lemma ZeroedPayloadIsOther(cfg: Config, f: Outgoing)
    requires Sendable(cfg, f) && cfg.frameMax >= 20 && Payload(cfg, f).Written?
    requires Payload(cfg, f).bytes != [] && Payload(cfg, f).bytes[0] != 0
    requires EncodeFrame(cfg, f).Written?
    ensures var o := DecodePayload(cfg, TypeOf(f), f.channel, Payload(cfg, f).bytes[0 := 0]);
            o.Fail? || (o.Got? && o.frame != Arrival(cfg, f))
  {
    hide Be, Num, RunEncode, RunDecode, PropertiesOf, DecodeFlags, DecodeProperties;
    Pow256Values();
    var p := Payload(cfg, f).bytes;
    match f
    case SendMethod(ch, id, vs) =>
      assert p[..4] == Be(4, id);
      ZeroedNumber(id, 4, p);
    case SendHeader(ch, c, size, ps) =>
      assert p[..2] == Be(2, c);
      ZeroedNumber(c, 2, p);
    case SendBody(_, b) =>
    case SendHeartbeat(_) =>
  }

  lemma ZeroedNumber(x: nat, n: nat, p: Bytes)
    requires 0 < n <= |p| && p[..n] == Be(n, x) && x < Pow256(n) && p[0] != 0
    ensures DecodeNum(p[0 := 0], n).Good? && DecodeNum(p[0 := 0], n).value != x
  {
    var z := p[0 := 0];
    NumOfBe(n, x);
    BeOfNum(z[..n]);
    assert z[..n][0] == 0 && p[..n][0] == p[0];
  }

  /** Sent as the very first frame of a connection, a body frame arrives with its first byte zeroed. */
  lemma FirstBodyFrame(cfg: Config, ch: UInt16, fragment: Bytes)
    requires ValidConfig(cfg) && cfg.frameMax >= 20 && 0 < |fragment| && |fragment| + 8 <= cfg.frameMax
    ensures Feed(cfg, NEW_READER, FrameBytes(FRAME_BODY, ch, fragment)) ==
            Fed(IDLE_READER, [Body(ch, fragment[0 := 0])], None)
  {
    var zeroed := fragment[0 := 0];
    var d, e := FrameBytes(FRAME_BODY, ch, fragment), FrameBytes(FRAME_BODY, ch, zeroed);
    assert d[HEADER_SIZE := 0] == e;
    assert d[0] == FRAME_BODY;
    FirstFrameLosesByteSeven(cfg, d);
    FrameThenRest(cfg, SendBody(ch, zeroed), []);
    assert e + [] == e;
  }
}
