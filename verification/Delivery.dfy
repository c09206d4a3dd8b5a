/**
  From publisher to consumer: a body is split into frames, the frames are written as bytes among those of
  other channels, the bytes arrive in any chunks, and the message is read back.
 */
module Delivery {
  import opened Wire
  import opened Framing
  import opened FrameCodec
  import opened FrameQueue
  import opened Connection
  import opened Messages
  import opened Rpc

  /** The frames of a channel among those sent. */
  function SentOn(fs: seq<Outgoing>, ch: UInt16): seq<Outgoing>
  {
    if fs == [] then []
    else (if !fs[0].SendHeartbeat? && fs[0].channel == ch then [fs[0]] else []) + SentOn(fs[1..], ch)
  }

  /** The frames `amqp_basic_publish` sends for one message. */
  function Published(header: Outgoing, ch: UInt16, fragments: seq<Bytes>): seq<Outgoing>
  {
    [header] + seq(|fragments|, i requires 0 <= i < |fragments| => SendBody(ch, fragments[i]))
  }

  lemma ArrivalOnChannel(cfg: Config, f: Outgoing, ch: UInt16)
    requires Sendable(cfg, f) && cfg.frameMax >= 20 && EncodeFrame(cfg, f).Written?
    ensures OnChannel([Arrival(cfg, f)], ch) == if !f.SendHeartbeat? && f.channel == ch then [Arrival(cfg, f)] else []
  {
    hide EncodeFrame, PropertiesOf;
    assert [Arrival(cfg, f)][..0] == [];
    NotOther(cfg, f);
  }

  lemma NotOther(cfg: Config, f: Outgoing)
    requires Sendable(cfg, f) && cfg.frameMax >= 20 && EncodeFrame(cfg, f).Written?
    ensures !f.SendOther?
  {
  }

  lemma TailSendable(cfg: Config, fs: seq<Outgoing>)
    requires fs != [] && AllSendable(cfg, fs)
    ensures AllSendable(cfg, fs[1..])
  {
    hide Transmits;
    assert forall i :: 0 <= i < |fs| - 1 ==> fs[1..][i] == fs[i + 1];
  }

  /** The frames that arrive on a channel are those sent on it. */
  lemma {:induction false} ArrivalsOnChannel(cfg: Config, fs: seq<Outgoing>, ch: UInt16)
    requires AllSendable(cfg, fs)
    ensures AllSendable(cfg, SentOn(fs, ch)) && OnChannel(Arrivals(cfg, fs), ch) == Arrivals(cfg, SentOn(fs, ch))
    decreases |fs|
  {
    hide Sendable, Intact, EncodeFrame, Arrival, OnChannel;
    if fs == [] {
      OnNothing(ch);
    } else {
      var later := fs[1..];
      TailSendable(cfg, fs);
      ArrivalsOnChannel(cfg, later, ch);
      ArrivalOnChannel(cfg, fs[0], ch);
      OnChannelOfConcat([Arrival(cfg, fs[0])], Arrivals(cfg, later), ch);
      if !fs[0].SendHeartbeat? && fs[0].channel == ch {
        assert SentOn(fs, ch)[1..] == SentOn(later, ch);
      } else {
        assert SentOn(fs, ch) == SentOn(later, ch);
        assert [] + Arrivals(cfg, SentOn(later, ch)) == Arrivals(cfg, SentOn(later, ch));
      }
    }
  }

  lemma OnNothing(ch: UInt16)
    ensures OnChannel([], ch) == []
  {
  }

  lemma {:induction false} ArrivalsOfPrefix(cfg: Config, fs: seq<Outgoing>, gs: seq<Outgoing>)
    requires AllSendable(cfg, gs) && fs <= gs
    ensures AllSendable(cfg, fs) && Arrivals(cfg, fs) <= Arrivals(cfg, gs) && |Arrivals(cfg, fs)| == |fs|
    decreases |fs|
  {
    hide Sendable, Intact, EncodeFrame, Arrival;
    if fs != [] {
      TailSendable(cfg, gs);
      ArrivalsOfPrefix(cfg, fs[1..], gs[1..]);
    }
  }

  lemma {:induction false} ArrivalAt(cfg: Config, fs: seq<Outgoing>, i: nat)
    requires AllSendable(cfg, fs) && i < |fs|
    ensures i < |Arrivals(cfg, fs)| && Arrivals(cfg, fs)[i] == Arrival(cfg, fs[i])
    decreases i
  {
    hide Sendable, Intact, EncodeFrame, Arrival;
    if i > 0 {
      TailSendable(cfg, fs);
      ArrivalAt(cfg, fs[1..], i - 1);
    }
  }

  /** What a published message looks like to the receiver. */
  lemma PublishedArrives(cfg: Config, header: Outgoing, ch: UInt16, fragments: seq<Bytes>)
    requires AllSendable(cfg, Published(header, ch, fragments)) && header.SendHeader?
    ensures Sendable(cfg, header) && cfg.frameMax >= 20 && EncodeFrame(cfg, header).Written?
    ensures Arrivals(cfg, Published(header, ch, fragments)) == [Arrival(cfg, header)] + BodyFrames(ch, fragments)
    ensures Arrival(cfg, header).Header? && Arrival(cfg, header).bodySize == header.bodySize
  {
    hide Sendable, Intact, EncodeFrame, PropertiesOf;
    var fs := Published(header, ch, fragments);
    assert fs[0] == header;
    ArrivalsOfPrefix(cfg, fs, fs);
    forall i | 0 <= i < |fs|
      ensures Arrivals(cfg, fs)[i] == ([Arrival(cfg, header)] + BodyFrames(ch, fragments))[i]
    {
      ArrivalAt(cfg, fs, i);
    }
  }

  /** The socket will deliver these chunks. */
  function Deliver(chunks: seq<Received>): seq<Event>
  {
    seq(|chunks|, i requires 0 <= i < |chunks| => Chunk(chunks[i]))
  }

  lemma {:induction false} BytesDelivered(chunks: seq<Received>)
    ensures ScriptBytes(Deliver(chunks)) == Flatten(chunks)
    decreases |chunks|
  {
    if chunks != [] {
      BytesDelivered(chunks[1..]);
      assert Deliver(chunks)[1..] == Deliver(chunks[1..]);
    }
  }

  /**
    Publish, transmit and read: a body published on a channel, its frames among any others on the wire and
    the bytes in any chunks, is read back on an idle connection as exactly that body, under its header.
   */
  method TransmitAndRead(
      cfg: Config, body: Bytes, ghost header: Outgoing, ch: UInt16, ghost fs: seq<Outgoing>, ghost fragments: seq<Bytes>,
      chunks: seq<Received>) returns (r: ReadReply)
    requires ValidConfig(cfg) && cfg.frameMax >= 20
    requires header.SendHeader? && header.channel == ch && header.bodySize == |body|
    requires IsFragmentation(body, cfg.frameMax - 8, fragments)
    requires AllSendable(cfg, fs) && Published(header, ch, fragments) <= SentOn(fs, ch) && Flatten(chunks) == StreamOf(cfg, fs)
    ensures Sendable(cfg, header) && EncodeFrame(cfg, header).Written? && r == Message(Arrival(cfg, header), body)
  {
    hide Feed, Sendable, Intact, EncodeFrame, Arrival, OnChannel, FirstOn, SentOn;
    ArrivalsOnChannel(cfg, fs, ch);
    ArrivalsOfPrefix(cfg, Published(header, ch, fragments), SentOn(fs, ch));
    PublishedArrives(cfg, header, ch, fragments);
    assert Published(header, ch, fragments)[0] == header;
    BytesDelivered(chunks);
    StreamArrives(cfg, fs);
    var c := new AmqpConnection(cfg, Deliver(chunks));
    c.reader := IDLE_READER;
    assert [] + ScriptBytes(c.script) == ScriptBytes(c.script);
    FirstOnNothing(ch);
    r := ReadPublished(c, ch, Arrival(cfg, header), body, cfg.frameMax - 8, fragments);
  }

  lemma FirstOnNothing(ch: UInt16)
    ensures FirstOn([], ch) == 0
  {
  }

  /** Expected or channel.close (20, 40), on the channel of the call, or connection.close (10, 50) on channel 0. */
  predicate EndsWait(call: Call, f: Outgoing)
  {
    && f.SendMethod?
    && ((f.channel == call.channel && (f.id in call.replies || f.id == 20 * 65536 + 40)) || (f.channel == 0 && f.id == 10 * 65536 + 50))
  }

  /**
    Request and reply over the wire: of the frames sent to an idle connection, in any chunks, the reply is the
    first that ends the wait. Only if none is sent does the wait fail.
   */
  method TransmitAndReply(cfg: Config, call: Call, ghost fs: seq<Outgoing>, chunks: seq<Received>) returns (r: Reply)
    requires ValidConfig(cfg) && cfg.frameMax >= 20
    requires AllSendable(cfg, fs) && Flatten(chunks) == StreamOf(cfg, fs)
    ensures r.LibraryException? <==> forall i | 0 <= i < |fs| :: !EndsWait(call, fs[i])
    ensures forall k | 0 <= k < |fs| && EndsWait(call, fs[k]) && (forall i | 0 <= i < k :: !EndsWait(call, fs[i])) ::
              && Sendable(cfg, fs[k]) && EncodeFrame(cfg, fs[k]).Written?
              && r == if fs[k].id in call.replies then Normal(Arrival(cfg, fs[k])) else ServerException(Arrival(cfg, fs[k]))
  {
    hide Feed, Sendable, Intact, EncodeFrame, Arrival, Answered, Matches, NoneMatches, Real, EndsWait;
    BytesDelivered(chunks);
    StreamArrives(cfg, fs);
    var c := new AmqpConnection(cfg, Deliver(chunks));
    c.reader := IDLE_READER;
    assert [] + ScriptBytes(c.script) == ScriptBytes(c.script);
    r := AwaitReply(c, call);
    ghost var k := ReplyIsFirst(cfg, call, fs, Taken(Arrivals(cfg, fs), c.Ahead().frames), c.queue.Contents(), r);
  }

  lemma ReplyIsFirst(cfg: Config, call: Call, fs: seq<Outgoing>, taken: seq<Frame>, q: seq<Frame>, r: Reply) returns (k: nat)
    requires AllSendable(cfg, fs) && taken <= Arrivals(cfg, fs) && Answered(call, taken, [], q, r)
    requires r.LibraryException? ==> taken == Arrivals(cfg, fs)
    ensures k <= |fs| && (r.LibraryException? <==> k == |fs|)
    ensures forall i | 0 <= i < k :: !EndsWait(call, fs[i])
    ensures k < |fs| ==>
              && EndsWait(call, fs[k]) && Sendable(cfg, fs[k]) && EncodeFrame(cfg, fs[k]).Written?
              && r == if fs[k].id in call.replies then Normal(Arrival(cfg, fs[k])) else ServerException(Arrival(cfg, fs[k]))
  {
    hide Sendable, Intact, EncodeFrame, PropertiesOf, Real, Arrivals;
    ArrivalsOfPrefix(cfg, fs, fs);
    k := if r.LibraryException? then |fs| else |taken| - 1;
    forall i | 0 <= i < k
      ensures !EndsWait(call, fs[i])
    {
      ArrivalAt(cfg, fs, i);
      assert !Matches(call, taken[i]);
    }
    if k < |fs| {
      ArrivalAt(cfg, fs, k);
      NotOther(cfg, fs[k]);
      VerdictMeans(call, taken[k]);
    }
  }
}
