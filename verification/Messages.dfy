/**
  Message bodies: how `amqp_basic_publish` (amqp_api.c) splits a body into frames, and how
  `amqp_read_message` (amqp_consumer.c) puts it together from whatever arrives on the connection.
 */
module Messages {
  import opened Wire
  import opened Framing
  import opened FrameQueue
  import opened Connection

  // ----- Publishing -----

  /** All fragments but the last are full, none is empty, and together they are the body. */
  ghost predicate IsFragmentation(body: Bytes, size: nat, fragments: seq<Bytes>)
  {
    && Flatten(fragments) == body
    && (forall i :: 0 <= i < |fragments| ==> 0 < |fragments[i]| <= size)
    && (forall i :: 0 <= i < |fragments| - 1 ==> |fragments[i]| == size)
  }

  lemma {:induction false} FlattenSnoc(chunks: seq<Bytes>, last: Bytes)
    ensures Flatten(chunks + [last]) == Flatten(chunks) + last
  {
    if chunks == [] {
      assert chunks + [last] == [last] && [last][1..] == [];
    } else {
      FlattenSnoc(chunks[1..], last);
      assert (chunks + [last])[1..] == chunks[1..] + [last];
    }
  }

  /** The body loop of `amqp_basic_publish`; it needs room for at least one payload byte per frame. */
  method Fragment(body: Bytes, frameMax: nat) returns (fragments: seq<Bytes>)
    requires frameMax > HEADER_SIZE + FOOTER_SIZE
    ensures IsFragmentation(body, frameMax - (HEADER_SIZE + FOOTER_SIZE), fragments)
  {
    var usable := frameMax - (HEADER_SIZE + FOOTER_SIZE);
    var offset := 0;
    fragments := [];
    while offset < |body|
      invariant 0 <= offset <= |body|
      invariant Flatten(fragments) == body[..offset]
      invariant forall i :: 0 <= i < |fragments| ==> 0 < |fragments[i]| <= usable
      invariant forall i :: 0 <= i < |fragments| - 1 ==> |fragments[i]| == usable
      invariant offset < |body| && fragments != [] ==> |fragments[|fragments| - 1]| == usable
    {
      var remaining := |body| - offset;
      var len := if remaining >= usable then usable else remaining;
      var piece := body[offset..offset + len];
      FlattenSnoc(fragments, piece);
      assert body[..offset] + piece == body[..offset + len];
      fragments := fragments + [piece];
      offset := offset + len;
    }
    assert body[..offset] == body;
  }

  /** A body has one fragmentation only. */
  lemma {:induction false} FragmentationIsUnique(body: Bytes, size: nat, a: seq<Bytes>, b: seq<Bytes>)
    requires IsFragmentation(body, size, a) && IsFragmentation(body, size, b)
    ensures a == b
    decreases |a|
  {
    if a == [] || b == [] {
      assert body == [];
    } else {
      SameHead(body, size, a, b);
      var rest := body[|a[0]|..];
      assert Flatten(a[1..]) == rest && Flatten(b[1..]) == rest;
      FragmentationIsUnique(rest, size, a[1..], b[1..]);
    }
  }

  lemma SameHead(body: Bytes, size: nat, a: seq<Bytes>, b: seq<Bytes>)
    requires IsFragmentation(body, size, a) && IsFragmentation(body, size, b) && a != [] && b != []
    ensures a[0] == b[0]
  {
    assert |a| > 1 ==> |a[0]| == size && |Flatten(a[1..])| >= |a[1]|;
    assert |b| > 1 ==> |b[0]| == size && |Flatten(b[1..])| >= |b[1]|;
    assert |a| == 1 ==> Flatten(a[1..]) == [];
    assert |b| == 1 ==> Flatten(b[1..]) == [];
    assert body[..|a[0]|] == a[0] && body[..|b[0]|] == b[0];
  }

  // ----- Reading -----

  predicate IsClose(f: Frame)
  {
    f.Method? && (f.id == CHANNEL_CLOSE || f.id == CONNECTION_CLOSE)
  }

  /** The payloads of body frames, in order. */
  function Joined(fs: seq<Frame>): Bytes
  {
    if fs == [] then []
    else Joined(fs[..|fs| - 1]) + (if fs[|fs| - 1].Body? then fs[|fs| - 1].fragment else [])
  }

  /** A header and body frames that do not yet make up the announced size. */
  predicate Partial(v: seq<Frame>)
  {
    && v != [] && v[0].Header?
    && (forall i :: 1 <= i < |v| ==> v[i].Body?)
    && |Joined(v[1..])| < v[0].bodySize
  }

  /** Nothing of a message, or a part of one. */
  predicate IsUnfinished(v: seq<Frame>)
  {
    v == [] || Partial(v)
  }

  datatype ReadReply =
    | Message(header: Frame, body: Bytes)
    | Closed(frame: Frame)             // channel.close or connection.close instead of content
    | Unexpected(frame: Frame)         // not a header; put back into the queue
    | BadBody(frame: Frame)            // not a body frame, or one that exceeds the announced size
    | Interrupted(status: Status)

  /** What `amqp_read_message` makes of the frames `v` it took off its channel. */
  predicate Makes(v: seq<Frame>, r: ReadReply)
  {
    match r
    case Interrupted(_) => IsUnfinished(v)
    case Unexpected(f) => v == [f] && !f.Header? && !IsClose(f)
    case Closed(f) => v != [] && v[|v| - 1] == f && IsClose(f) && (|v| == 1 || Partial(v[..|v| - 1]))
    case BadBody(f) =>
      && |v| > 1 && v[|v| - 1] == f && Partial(v[..|v| - 1]) && !IsClose(f)
      && (f.Body? ==> |Joined(v[1..])| > v[0].bodySize)
    case Message(h, body) =>
      && v != [] && v[0] == h && h.Header? && Joined(v[1..]) == body && |body| == h.bodySize
      && (|v| == 1 || (Partial(v[..|v| - 1]) && v[|v| - 1].Body?))
  }

  /** The frames other than heartbeats that belong to other channels. */
  function Others(fs: seq<Frame>, ch: UInt16): seq<Frame>
  {
    if fs == [] then []
    else
      var f := fs[|fs| - 1];
      Others(fs[..|fs| - 1], ch) + (if !f.Heartbeat? && ChannelOfFrame(f) != ch then [f] else [])
  }

  lemma {:induction false} OthersOfConcat(a: seq<Frame>, b: seq<Frame>, ch: UInt16)
    ensures Others(a + b, ch) == Others(a, ch) + Others(b, ch)
    decreases |b|
  {
    if b == [] {
      assert a + b == a;
    } else {
      var front := b[..|b| - 1];
      assert (a + b)[..|a + b| - 1] == a + front;
      OthersOfConcat(a, front, ch);
    }
  }

  lemma {:induction false} AllOthers(fs: seq<Frame>, ch: UInt16)
    requires OnChannel(fs, ch) == []
    ensures Real(fs) == Others(fs, ch)
    decreases |fs|
  {
    if fs != [] {
      AllOthers(fs[..|fs| - 1], ch);
    }
  }

  lemma {:induction false} NoneOfOthers(q: seq<Frame>, fs: seq<Frame>, ch: UInt16)
    requires FirstOn(q, ch) == |q|
    ensures FirstOn(q + Others(fs, ch), ch) == |q + Others(fs, ch)|
    decreases |fs|
  {
    if fs == [] {
      assert q + Others(fs, ch) == q;
    } else {
      var front := Others(fs[..|fs| - 1], ch);
      NoneOfOthers(q, fs[..|fs| - 1], ch);
      var all := q + Others(fs, ch);
      var f := fs[|fs| - 1];
      assert all == (q + front) + (if !f.Heartbeat? && ChannelOfFrame(f) != ch then [f] else []);
      assert forall i :: 0 <= i < |q + front| ==> ChannelOfFrame((q + front)[i]) != ch;
      assert forall i :: 0 <= i < |all| ==> ChannelOfFrame(all[i]) != ch;
    }
  }

  /** A wait on a channel without queued frames: the channel's frame is delivered, the others are queued. */
  lemma SortedByChannel(taken: seq<Frame>, ch: UInt16, q: seq<Frame>, q': seq<Frame>, w: Waited)
    requires Sorted(taken, ch, q, q', w)
    ensures q' == q + Others(taken, ch)
    ensures OnChannel(taken, ch) == if w.Delivered? then [w.frame] else []
  {
    hide Real, OnChannel, Others;
    match w
    case Refused(_) => AllOthers(taken, ch);
    case Delivered(f) =>
      var front := taken[..|taken| - 1];
      assert taken == front + [f];
      OnChannelOfConcat(front, [f], ch);
      RealOne(f, ch);
      assert |OnChannel(front, ch)| == 0;
      AllOthers(front, ch);
      OthersOfConcat(front, [f], ch);
      OthersOne(f, ch);
      assert Others(front, ch) + [] == Others(front, ch);
  }

  lemma OthersOne(f: Frame, ch: UInt16)
    requires IsRealOn(f, ch)
    ensures Others([f], ch) == []
  {
    assert [f][..0] == [];
  }

  /** Since `start`, the frames `v` of the channel were taken and the frames of other channels were queued. */
  predicate Progress(start: Incoming, now: Incoming, ch: UInt16, q: seq<Frame>, q': seq<Frame>, v: seq<Frame>)
  {
    && IsSuffix(start.frames, now.frames) && now.error == start.error
    && v == OnChannel(Taken(start.frames, now.frames), ch)
    && q' == q + Others(Taken(start.frames, now.frames), ch)
  }

  lemma NoProgress(start: Incoming, ch: UInt16, q: seq<Frame>)
    ensures Progress(start, start, ch, q, q, [])
  {
    assert start.frames[0..] == start.frames && Taken(start.frames, start.frames) == [];
    assert q + [] == q;
  }

  lemma ProgressMore(
      start: Incoming, mid: Incoming, now: Incoming, ch: UInt16, q: seq<Frame>, q1: seq<Frame>, q2: seq<Frame>,
      v: seq<Frame>, w: Waited)
    requires Progress(start, mid, ch, q, q1, v)
    requires IsSuffix(mid.frames, now.frames) && now.error == mid.error
    requires Sorted(Taken(mid.frames, now.frames), ch, q1, q2, w)
    ensures Progress(start, now, ch, q, q2, v + if w.Delivered? then [w.frame] else [])
  {
    hide Sorted, OnChannel, Others;
    var a, b := Taken(start.frames, mid.frames), Taken(mid.frames, now.frames);
    TakenInOrder(start.frames, mid.frames, now.frames);
    SortedByChannel(b, ch, q1, q2, w);
    OnChannelOfConcat(a, b, ch);
    OthersOfConcat(a, b, ch);
    assert q + Others(a, ch) + Others(b, ch) == q + (Others(a, ch) + Others(b, ch));
  }

  /** The next frame of the channel. */
  method NextOnChannel(
      c: AmqpConnection, ch: UInt16, ghost start: Incoming, ghost q: seq<Frame>, ghost v: seq<Frame>) returns (w: Waited)
    requires c.Valid() && !c.broken
    requires FirstOn(q, ch) == |q| ==> Progress(start, c.Ahead(), ch, q, c.queue.Contents(), v)
    modifies c`reader, c`buffered, c`script, c`broken, c.queue, c.queue.links
    ensures c.Valid()
    ensures forall i :: 0 <= i < |c.queue.links| ==> c.queue.links[i] in old(c.queue.links) || fresh(c.queue.links[i])
    ensures c.broken ==> w.Refused?
    ensures w.Delivered? ==>
              |c.queue.Contents()| + |c.Ahead().frames| < old(|c.queue.Contents()| + |c.Ahead().frames|)
    ensures FirstOn(q, ch) == |q| && c.broken ==> start.error == Some(w.status)
    ensures FirstOn(q, ch) == |q| && !c.broken ==>
              Progress(start, c.Ahead(), ch, q, c.queue.Contents(), v + if w.Delivered? then [w.frame] else [])
    ensures old(c.Smooth()) ==> c.Smooth()
    // unless the socket gave up, a wait is refused only when the channel has no further frame
    ensures FirstOn(q, ch) == |q| && w.Refused? && (c.broken || old(c.Smooth())) ==> v == OnChannel(start.frames, ch)
  {
    hide Feed, ScriptBytes, ValidReader, IncomingOf, Queue.Valid, Queue.Contents, Sorted, Progress, FirstOn;
    ghost var mid, q1 := c.Ahead(), c.queue.Contents();
    w := c.WaitOnChannel(ch);
    if w.Delivered? && FirstOn(q1, ch) == |q1| {
      SortedShrinks(Taken(mid.frames, c.Ahead().frames), ch, q1, c.queue.Contents(), w);
    }
    if FirstOn(q, ch) == |q| {
      QueueHasNone(start, mid, ch, q, q1, v);
      if c.broken {
        NoneLeft(start, mid, ch, q, q1, v);
      } else {
        ProgressMore(start, mid, c.Ahead(), ch, q, q1, c.queue.Contents(), v, w);
        if w.Refused? {
          assert v + [] == v;
          NothingLeft(start, c.Ahead(), ch, q, c.queue.Contents(), v);
        }
      }
    }
  }

  lemma NoneLeft(start: Incoming, mid: Incoming, ch: UInt16, q: seq<Frame>, q1: seq<Frame>, v: seq<Frame>)
    requires Progress(start, mid, ch, q, q1, v) && OnChannel(mid.frames, ch) == []
    ensures v == OnChannel(start.frames, ch)
  {
    hide OnChannel, Others;
    assert start.frames == Taken(start.frames, mid.frames) + mid.frames;
    OnChannelOfConcat(Taken(start.frames, mid.frames), mid.frames, ch);
  }

  lemma NothingLeft(start: Incoming, now: Incoming, ch: UInt16, q: seq<Frame>, q': seq<Frame>, v: seq<Frame>)
    requires Progress(start, now, ch, q, q', v)
    ensures now.frames == [] ==> v == OnChannel(start.frames, ch)
  {
    if now.frames == [] {
      assert Taken(start.frames, now.frames) == start.frames;
    }
  }

  /** A delivered frame is gone for good: at most the other frames taken were queued. */
  lemma SortedShrinks(taken: seq<Frame>, ch: UInt16, q: seq<Frame>, q': seq<Frame>, w: Waited)
    requires Sorted(taken, ch, q, q', w) && w.Delivered?
    ensures |q'| < |q| + |taken|
  {
    RealIsShorter(taken[..|taken| - 1]);
  }

  lemma {:induction false} RealIsShorter(fs: seq<Frame>)
    ensures |Real(fs)| <= |fs|
    decreases |fs|
  {
    if fs != [] {
      RealIsShorter(fs[..|fs| - 1]);
    }
  }

  lemma QueueHasNone(start: Incoming, mid: Incoming, ch: UInt16, q: seq<Frame>, q1: seq<Frame>, v: seq<Frame>)
    requires Progress(start, mid, ch, q, q1, v) && FirstOn(q, ch) == |q|
    ensures FirstOn(q1, ch) == |q1| && mid.error == start.error
  {
    NoneOfOthers(q, Taken(start.frames, mid.frames), ch);
  }

  lemma JoinedSnoc(v: seq<Frame>, f: Frame)
    requires |v| > 0
    ensures (v + [f])[1..] == v[1..] + [f]
    ensures Joined((v + [f])[1..]) == Joined(v[1..]) + if f.Body? then f.fragment else []
  {
    var w := (v + [f])[1..];
    assert w == v[1..] + [f] && w[..|w| - 1] == v[1..];
  }

  /**
    `amqp_read_message` on a channel that has no queued frames: the frames it takes off the channel
    determine the reply, and the frames of other channels it meets are queued in order.
   */
  method ReadMessage(c: AmqpConnection, ch: UInt16) returns (r: ReadReply)
    requires c.Valid() && !c.broken
    modifies c`reader, c`buffered, c`script, c`broken, c.queue, c.queue.links
    ensures c.Valid()
    ensures var q, start := old(c.queue.Contents()), old(c.Ahead());
            FirstOn(q, ch) == |q| ==>
              if c.broken then r.Interrupted? && start.error == Some(r.status)
              else
                && IsSuffix(start.frames, c.Ahead().frames) && c.Ahead().error == start.error
                && var taken := Taken(start.frames, c.Ahead().frames);
                   && Makes(OnChannel(taken, ch), r)
                   && c.queue.Contents() == (if r.Unexpected? then [r.frame] else []) + (q + Others(taken, ch))
    ensures var q, start := old(c.queue.Contents()), old(c.Ahead());
            FirstOn(q, ch) == |q| && r.Interrupted? && (c.broken || old(c.Smooth())) ==> IsUnfinished(OnChannel(start.frames, ch))
    // channel.close (20, 40) and connection.close (10, 50) close; any other frame is unexpected
    ensures r.Closed? ==> r.frame.Method? && (r.frame.id == 20 * 65536 + 40 || r.frame.id == 10 * 65536 + 50)
    ensures (r.Unexpected? || r.BadBody?) && r.frame.Method? ==> r.frame.id != 20 * 65536 + 40 && r.frame.id != 10 * 65536 + 50
  {
    hide Feed, ScriptBytes, ValidReader, IncomingOf, Queue.Valid, Queue.Contents, Partial, FirstOn, OnChannel, Others;
    ghost var q, start := c.queue.Contents(), c.Ahead();
    NoProgress(start, ch, q);
    var w := NextOnChannel(c, ch, start, q, []);
    assert forall s: seq<Frame> :: [] + s == s;
    if w.Refused? {
      return Interrupted(w.status);
    }
    var h := w.frame;
    MakesOfFirst(h);
    if !h.Header? {
      if IsClose(h) {
        return Closed(h);
      }
      c.queue.PutBack(h);
      return Unexpected(h);
    }
    var body;
    r, body := ReadBody(c, ch, h, start, q);
  }

  /** What the first frame of the channel decides. */
  lemma MakesOfFirst(f: Frame)
    ensures [] + [f] == [f]
    ensures !f.Header? && IsClose(f) ==> Makes([f], Closed(f))
    ensures !f.Header? && !IsClose(f) ==> Makes([f], Unexpected(f))
    ensures f.Header? && f.bodySize > 0 ==> Partial([f])
    ensures f.Header? && f.bodySize == 0 ==> Makes([f], Message(f, []))
  {
    assert [f][1..] == [];
  }

  /** What one more frame decides. */
  lemma MakesOfNext(v: seq<Frame>, f: Frame)
    requires Partial(v)
    ensures var size, all := v[0].bodySize, Joined(v[1..]) + (if f.Body? then f.fragment else []);
            if !f.Body? then Makes(v + [f], if IsClose(f) then Closed(f) else BadBody(f))
            else if |all| > size then Makes(v + [f], BadBody(f))
            else if |all| == size then Makes(v + [f], Message(v[0], all))
            else Partial(v + [f]) && Joined((v + [f])[1..]) == all
  {
    hide Joined;
    JoinedSnoc(v, f);
    assert (v + [f])[..|v + [f]| - 1] == v;
  }

  /** The body loop: fragments are copied into a buffer of the announced size. */
  method ReadBody(c: AmqpConnection, ch: UInt16, h: Frame, ghost start: Incoming, ghost q: seq<Frame>)
      returns (r: ReadReply, body: array<Byte>)
    requires c.Valid() && !c.broken && h.Header?
    requires FirstOn(q, ch) == |q| ==> Progress(start, c.Ahead(), ch, q, c.queue.Contents(), [h])
    modifies c`reader, c`buffered, c`script, c`broken, c.queue, c.queue.links
    ensures c.Valid() && !r.Unexpected?
    ensures FirstOn(q, ch) == |q| ==>
              if c.broken then r.Interrupted? && start.error == Some(r.status)
              else exists v :: Makes(v, r) && Progress(start, c.Ahead(), ch, q, c.queue.Contents(), v)
    ensures FirstOn(q, ch) == |q| && r.Interrupted? && (c.broken || old(c.Smooth())) ==> IsUnfinished(OnChannel(start.frames, ch))
    ensures r.Closed? ==> r.frame.Method? && (r.frame.id == 20 * 65536 + 40 || r.frame.id == 10 * 65536 + 50)
    ensures (r.Unexpected? || r.BadBody?) && r.frame.Method? ==> r.frame.id != 20 * 65536 + 40 && r.frame.id != 10 * 65536 + 50
  {
    hide Feed, ScriptBytes, ValidReader, IncomingOf, Queue.Valid, Queue.Contents, Partial, FirstOn, Makes, Progress, Joined;
    body := new Byte[h.bodySize](_ => 0);
    var read: nat := 0;
    ghost var v := [h];
    MakesOfFirst(h);
    NothingJoined(h);
    assert body[..read] == [] && (body.Length == 0 ==> body[..] == []);
    while read < body.Length
      invariant c.Valid() && !c.broken && fresh(body) && read <= body.Length == h.bodySize
      invariant forall i :: 0 <= i < |c.queue.links| ==> c.queue.links[i] in old(c.queue.links) || fresh(c.queue.links[i])
      invariant FirstOn(q, ch) == |q| ==> Progress(start, c.Ahead(), ch, q, c.queue.Contents(), v)
      invariant v != [] && v[0] == h && Joined(v[1..]) == body[..read]
      invariant if read < body.Length then Partial(v) else Makes(v, Message(h, body[..]))
      invariant old(c.Smooth()) ==> c.Smooth()
      decreases |c.queue.Contents()| + |c.Ahead().frames|
    {
      ghost var filled := body[..read];
      var w := NextOnChannel(c, ch, start, q, v);
      MakesInterrupted(v);
      if w.Refused? {
        assert v + [] == v;
        return Interrupted(w.status), body;
      }
      var f := w.frame;
      MakesOfNext(v, f);
      v := v + [f];
      if !f.Body? {
        return if IsClose(f) then Closed(f) else BadBody(f), body;
      }
      if read + |f.fragment| > body.Length {
        return BadBody(f), body;
      }
      CopyIn(body, read, f.fragment);
      JoinedSnoc(v[..|v| - 1], f);
      read := read + |f.fragment|;
      assert body[..read] == filled + f.fragment && (read == body.Length ==> body[..] == body[..read]);
    }
    r := Message(h, body[..]);
  }

  lemma NothingJoined(h: Frame)
    ensures [h][1..] == [] && Joined([h][1..]) == []
  {
  }

  lemma MakesInterrupted(v: seq<Frame>)
    requires Partial(v)
    ensures forall st :: Makes(v, Interrupted(st))
  {
  }

  // ----- Publishing and reading are inverse -----

  function BodyFrames(ch: UInt16, fragments: seq<Bytes>): (r: seq<Frame>)
    ensures |r| == |fragments|
  {
    seq(|fragments|, i requires 0 <= i < |fragments| => Body(ch, fragments[i]))
  }

  lemma {:induction false} JoinedBodies(ch: UInt16, fragments: seq<Bytes>)
    ensures Joined(BodyFrames(ch, fragments)) == Flatten(fragments)
    decreases |fragments|
  {
    if fragments != [] {
      var front, last := fragments[..|fragments| - 1], fragments[|fragments| - 1];
      JoinedBodies(ch, front);
      assert fragments == front + [last];
      FlattenSnoc(front, last);
      var all := BodyFrames(ch, fragments);
      assert all[..|all| - 1] == BodyFrames(ch, front);
    }
  }

  lemma {:induction false} FlattenGrows(fragments: seq<Bytes>, k: nat)
    requires k <= |fragments|
    ensures |Flatten(fragments[..k])| <= |Flatten(fragments)|
    ensures k < |fragments| && (forall i :: 0 <= i < |fragments| ==> 0 < |fragments[i]|) ==>
              |Flatten(fragments[..k])| < |Flatten(fragments)|
    decreases k
  {
    if k == 0 {
      assert fragments[..0] == [];
      assert fragments != [] ==> |Flatten(fragments)| >= |fragments[0]|;
    } else {
      FlattenGrows(fragments[1..], k - 1);
      assert fragments[..k][1..] == fragments[1..][..k - 1];
    }
  }

  /** The frames a publisher puts on the channel for one message. */
  ghost predicate IsPublished(h: Frame, body: Bytes, ch: UInt16, size: nat, fragments: seq<Bytes>)
  {
    h.Header? && h.bodySize == |body| && IsFragmentation(body, size, fragments)
  }

  /** Reading frames off a channel that starts with a published message can only end with that message. */
  lemma PublishedIsRead(
      h: Frame, body: Bytes, ch: UInt16, size: nat, fragments: seq<Bytes>, v: seq<Frame>, w: seq<Frame>, r: ReadReply)
    requires IsPublished(h, body, ch, size, fragments)
    requires [h] + BodyFrames(ch, fragments) <= w && v <= w
    requires Makes(v, r) && !r.Interrupted?
    ensures r == Message(h, body) && v == [h] + BodyFrames(ch, fragments)
  {
    hide Joined, Flatten;
    var all := [h] + BodyFrames(ch, fragments);
    assert v[0] == w[0] == all[0] == h;
    var k := |v| - 1;
    if k == 0 {
      assert v == [h] && v[1..] == [];
      PrefixJoined(ch, fragments, 0);
      FlattenGrows(fragments, 0);
      assert fragments == [] ==> all == [h];
      assert fragments[..|fragments|] == fragments;
    } else {
      var front := v[..k];
      if k > |fragments| {
        assert front[..|all|] == all;
        assert front[1..|all|] == BodyFrames(ch, fragments);
        MoreThanPublished(h, body, ch, fragments, front);
      } else {
        assert v == all[..k + 1];
        assert v[1..] == BodyFrames(ch, fragments[..k]);
        PrefixJoined(ch, fragments, k);
        FlattenGrows(fragments, k);
        assert v[k] == Body(ch, fragments[k - 1]);
        assert k == |fragments| ==> fragments[..k] == fragments && v == all;
      }
    }
  }

  lemma PrefixJoined(ch: UInt16, fragments: seq<Bytes>, k: nat)
    requires k <= |fragments|
    ensures Joined(BodyFrames(ch, fragments[..k])) == Flatten(fragments[..k])
    ensures Joined([]) == []
  {
    JoinedBodies(ch, fragments[..k]);
  }

  /** Once all fragments are in, the message is no longer partial. */
  lemma MoreThanPublished(h: Frame, body: Bytes, ch: UInt16, fragments: seq<Bytes>, front: seq<Frame>)
    requires h.Header? && h.bodySize == |body| && Flatten(fragments) == body
    requires |front| > |fragments| && front[0] == h && front[1..|fragments| + 1] == BodyFrames(ch, fragments)
    ensures !Partial(front)
  {
    JoinedBodies(ch, fragments);
    JoinedGrows(front[1..], |fragments|);
    assert front[1..][..|fragments|] == BodyFrames(ch, fragments);
  }

  lemma PublishedIsFinished(h: Frame, body: Bytes, ch: UInt16, size: nat, fragments: seq<Bytes>, w: seq<Frame>)
    requires IsPublished(h, body, ch, size, fragments) && [h] + BodyFrames(ch, fragments) <= w
    ensures !IsUnfinished(w)
  {
    hide Joined, Flatten, Partial;
    var all := [h] + BodyFrames(ch, fragments);
    assert w[..|all|] == all && w[0] == all[0];
    assert w[1..|all|] == all[1..] == BodyFrames(ch, fragments);
    MoreThanPublished(h, body, ch, fragments, w);
  }

  lemma {:induction false} JoinedGrows(fs: seq<Frame>, k: nat)
    requires k <= |fs|
    ensures |Joined(fs[..k])| <= |Joined(fs)|
    decreases |fs|
  {
    if k < |fs| {
      var front := fs[..|fs| - 1];
      JoinedGrows(front, k);
      assert front[..k] == fs[..k];
    } else {
      assert fs[..k] == fs;
    }
  }

  /**
    Publish, then read: if the frames to come on channel `ch` begin with the header and the fragments of
    a published message, interleaved in any way with other channels' frames and with heartbeats, and no
    frame of the channel is queued, then reading returns exactly that body, unless the socket fails or
    times out on the way, and queues the other channels' frames in order.
   */
  method ReadPublished(
      c: AmqpConnection, ch: UInt16, ghost h: Frame, ghost body: Bytes, ghost size: nat, ghost fragments: seq<Bytes>)
      returns (r: ReadReply)
    requires c.Valid() && !c.broken && FirstOn(c.queue.Contents(), ch) == |c.queue.Contents()|
    requires IsPublished(h, body, ch, size, fragments)
    requires [h] + BodyFrames(ch, fragments) <= OnChannel(c.Ahead().frames, ch)
    modifies c`reader, c`buffered, c`script, c`broken, c.queue, c.queue.links
    ensures c.Valid()
    ensures !r.Interrupted? ==>
              && r == Message(h, body) && !c.broken
              && IsSuffix(old(c.Ahead()).frames, c.Ahead().frames)
              && var taken := Taken(old(c.Ahead()).frames, c.Ahead().frames);
                 && OnChannel(taken, ch) == [h] + BodyFrames(ch, fragments)
                 && c.queue.Contents() == old(c.queue.Contents()) + Others(taken, ch)
    ensures r.Interrupted? ==> !old(c.Smooth()) && !c.broken
  {
    hide Feed, ScriptBytes, ValidReader, IncomingOf, Queue.Valid, Queue.Contents, Makes, FirstOn, OnChannel, Others;
    ghost var start := c.Ahead().frames;
    r := ReadMessage(c, ch);
    PublishedIsFinished(h, body, ch, size, fragments, OnChannel(start, ch));
    if !c.broken && !r.Interrupted? {
      ghost var taken := Taken(start, c.Ahead().frames);
      assert start == taken + c.Ahead().frames;
      OnChannelOfConcat(taken, c.Ahead().frames, ch);
      PublishedIsRead(h, body, ch, size, fragments, OnChannel(taken, ch), OnChannel(start, ch), r);
      assert forall s: seq<Frame> :: [] + s == s;
    }
  }
}
