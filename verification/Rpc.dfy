/**
  Matching a reply to a request (`simple_rpc_inner` in amqp_socket.c), from the moment the request has
  been sent.
 */
module Rpc {
  import opened Wire
  import opened Framing
  import opened FrameQueue
  import opened Connection

  datatype Call = Call(channel: UInt16, replies: seq<UInt32>)

  /** An expected reply or a channel.close on the channel, or a connection.close on channel 0. */
  predicate Matches(call: Call, f: Frame)
  {
    && f.Method?
    && ((f.channel == call.channel && (f.id in call.replies || f.id == CHANNEL_CLOSE))
        || (f.channel == 0 && f.id == CONNECTION_CLOSE))
  }

  predicate NoneMatches(call: Call, fs: seq<Frame>)
  {
    forall i :: 0 <= i < |fs| ==> !Matches(call, fs[i])
  }

  datatype Reply =
    | Normal(frame: Frame)
    | ServerException(frame: Frame)
    | LibraryException(status: Status)

  /**
    What reading `taken` while waiting for the reply did: the reply, if any, is the last frame taken and
    the first that matches; all other frames went to the queue in order, heartbeats excepted.
   */
  predicate Answered(call: Call, taken: seq<Frame>, q: seq<Frame>, q': seq<Frame>, r: Reply)
  {
    match r
    case LibraryException(_) => q' == q + Real(taken) && NoneMatches(call, taken)
    case Normal(f) => IsAnswer(call, taken, q, q', f) && f.id in call.replies
    case ServerException(f) => IsAnswer(call, taken, q, q', f) && f.id !in call.replies
  }

  /** A close instead of the expected reply is a server exception. */
  function Verdict(call: Call, f: Frame): Reply
    requires f.Method?
  {
    if f.id in call.replies then Normal(f) else ServerException(f)
  }

  predicate IsAnswer(call: Call, taken: seq<Frame>, q: seq<Frame>, q': seq<Frame>, f: Frame)
  {
    && taken != [] && f == taken[|taken| - 1] && Matches(call, f)
    && q' == q + Real(taken[..|taken| - 1]) && NoneMatches(call, taken[..|taken| - 1])
  }

  /** The retry loop of `simple_rpc_inner`. */
  method AwaitReply(c: AmqpConnection, call: Call) returns (r: Reply)
    requires c.Valid() && !c.broken
    modifies c`reader, c`buffered, c`script, c`broken, c.queue, c.queue.links
    ensures c.Valid()
    ensures var q, start := old(c.queue.Contents()), old(c.Ahead());
            if c.broken then
              && r.LibraryException? && start.error == Some(r.status)
              && c.queue.Contents() == q + Real(start.frames) && NoneMatches(call, start.frames)
            else
              && IsSuffix(start.frames, c.Ahead().frames) && c.Ahead().error == start.error
              && Answered(call, Taken(start.frames, c.Ahead().frames), q, c.queue.Contents(), r)
    // a normal reply is an expected method on the channel of the call, connection.close (10, 50) being the exception
    ensures r.Normal? ==>
              && r.frame.Method? && r.frame.id in call.replies
              && (r.frame.channel == call.channel || (r.frame.channel == 0 && r.frame.id == 10 * 65536 + 50))
    // otherwise channel.close (20, 40) on that channel or connection.close on channel 0
    ensures r.ServerException? ==>
              && r.frame.Method? && r.frame.id !in call.replies
              && ((r.frame.channel == call.channel && r.frame.id == 20 * 65536 + 40)
                  || (r.frame.channel == 0 && r.frame.id == 10 * 65536 + 50))
    // nothing that would have ended the wait has been queued
    ensures old(c.queue.Contents()) <= c.queue.Contents()
    ensures forall f <- c.queue.Contents()[|old(c.queue.Contents())|..] :: f.Method? ==>
              && (f.channel == call.channel ==> f.id !in call.replies && f.id != 20 * 65536 + 40)
              && (f.channel == 0 ==> f.id != 10 * 65536 + 50)
    ensures old(c.Smooth()) ==> c.Smooth() && (r.LibraryException? && !c.broken ==> c.Ahead().frames == [])
  {
    hide Feed, ScriptBytes, ValidReader, IncomingOf, Queue.Valid, Queue.Contents, Answered, Passed;
    hide Real, Matches, NoneMatches, AllHeartbeats, IsSuffix, Taken;
    ghost var q, start := c.queue.Contents(), c.Ahead();
    NoFrameYet(call, start.frames, q);
    while true
      invariant c.Valid() && !c.broken
      invariant forall i :: 0 <= i < |c.queue.links| ==> c.queue.links[i] in old(c.queue.links) || fresh(c.queue.links[i])
      invariant IsSuffix(start.frames, c.Ahead().frames) && c.Ahead().error == start.error
      invariant Answered(call, Taken(start.frames, c.Ahead().frames), q, c.queue.Contents(), LibraryException(OK))
      invariant old(c.Smooth()) ==> c.Smooth()
      decreases |c.Ahead().frames|
    {
      ghost var before, contents := c.Ahead(), c.queue.Contents();
      var w := c.WaitFrameInner();
      if c.broken {
        NoMatchToTheEnd(call, start.frames, before.frames, q, contents);
        NoneQueued(call, start.frames, q, contents);
        return LibraryException(w.status);
      }
      OneMoreFrame(call, start.frames, before, c.Ahead(), q, contents, w);
      ghost var taken := Taken(start.frames, c.Ahead().frames);
      if w.Refused? {
        AnsweredMeans(call, taken, q, contents, LibraryException(w.status));
        return LibraryException(w.status);
      }
      if Matches(call, w.frame) {
        VerdictMeans(call, w.frame);
        AnsweredMeans(call, taken, q, contents, Verdict(call, w.frame));
        return Verdict(call, w.frame);
      }
      c.queue.AppendBehindLast(w.frame);
    }
  }

  /** What a match is, by class and method number. */
  lemma VerdictMeans(call: Call, f: Frame)
    requires Matches(call, f)
    ensures f.Method? && (f.id in call.replies ==> Verdict(call, f) == Normal(f))
    ensures f.id !in call.replies ==> Verdict(call, f) == ServerException(f)
    ensures f.channel == call.channel || (f.channel == 0 && f.id == 10 * 65536 + 50)
    ensures f.id in call.replies || f.id == 20 * 65536 + 40 || (f.channel == 0 && f.id == 10 * 65536 + 50)
  {
  }

  /** Frames none of which matched, as the queue sees them. */
  lemma NoneQueued(call: Call, fs: seq<Frame>, q: seq<Frame>, q': seq<Frame>)
    requires q' == q + Real(fs) && NoneMatches(call, fs)
    ensures q <= q'
    ensures forall f <- q'[|q|..] :: f.Method? ==>
              && (f.channel == call.channel ==> f.id !in call.replies && f.id != 20 * 65536 + 40)
              && (f.channel == 0 ==> f.id != 10 * 65536 + 50)
  {
    hide Real;
    RealAreTaken(fs);
    assert q'[|q|..] == Real(fs);
  }

  lemma {:induction false} RealAreTaken(fs: seq<Frame>)
    ensures forall f <- Real(fs) :: f in fs
    decreases |fs|
  {
    if fs != [] {
      RealAreTaken(fs[..|fs| - 1]);
    }
  }

  lemma AnsweredMeans(call: Call, taken: seq<Frame>, q: seq<Frame>, q': seq<Frame>, r: Reply)
    requires Answered(call, taken, q, q', r)
    ensures q <= q'
    ensures forall f <- q'[|q|..] :: f.Method? ==>
              && (f.channel == call.channel ==> f.id !in call.replies && f.id != 20 * 65536 + 40)
              && (f.channel == 0 ==> f.id != 10 * 65536 + 50)
  {
    hide Real, Matches, NoneMatches;
    NoneQueued(call, if r.LibraryException? then taken else taken[..|taken| - 1], q, q');
  }

  lemma NoFrameYet(call: Call, frames: seq<Frame>, q: seq<Frame>)
    ensures IsSuffix(frames, frames) && Answered(call, Taken(frames, frames), q, q, LibraryException(OK))
  {
    assert frames[0..] == frames && Taken(frames, frames) == [];
    assert q + [] == q;
  }

  lemma OneMoreFrame(
      call: Call, start: seq<Frame>, before: Incoming, after: Incoming, q: seq<Frame>, q': seq<Frame>, w: Waited)
    requires IsSuffix(start, before.frames)
    requires Answered(call, Taken(start, before.frames), q, q', LibraryException(OK))
    requires Passed(before, after, w)
    ensures IsSuffix(start, after.frames) && after.error == before.error
    ensures var taken := Taken(start, after.frames);
            match w
            case Refused(st) => Answered(call, taken, q, q', LibraryException(st))
            case Delivered(f) =>
              if Matches(call, f) then Answered(call, taken, q, q', Verdict(call, f))
              else |after.frames| < |before.frames| && Answered(call, taken, q, q' + [f], LibraryException(OK))
  {
    hide Real, Matches, NoneMatches;
    match w
    case Refused(_) =>
      var b := Taken(before.frames, after.frames);
      TakenInOrder(start, before.frames, after.frames);
      SkipHeartbeats(Taken(start, before.frames), b, 0);
      HeartbeatsDoNotMatch(call, Taken(start, before.frames), b);
    case Delivered(f) =>
      var mid := [f] + after.frames;
      var b := Taken(before.frames, mid);
      TakenInOrder(start, before.frames, mid);
      SkipHeartbeats(Taken(start, before.frames), b, 0);
      HeartbeatsDoNotMatch(call, Taken(start, before.frames), b);
      assert mid[1..] == after.frames;
      assert IsSuffix(mid, after.frames) && Taken(mid, after.frames) == [f];
      TakenInOrder(start, mid, after.frames);
      OneMoreTaken(call, Taken(start, mid), q, q', f);
  }

  lemma HeartbeatsDoNotMatch(call: Call, a: seq<Frame>, b: seq<Frame>)
    requires NoneMatches(call, a) && AllHeartbeats(b)
    ensures NoneMatches(call, a + b)
  {
  }

  /** A frame behind frames none of which matched: the answer, or one more for the queue. */
  lemma OneMoreTaken(call: Call, front: seq<Frame>, q: seq<Frame>, q': seq<Frame>, f: Frame)
    requires q' == q + Real(front) && NoneMatches(call, front) && !f.Heartbeat?
    ensures Matches(call, f) ==> f.Method? && Answered(call, front + [f], q, q', Verdict(call, f))
    ensures !Matches(call, f) ==> Answered(call, front + [f], q, q' + [f], LibraryException(OK))
  {
    hide Real;
    RealOfConcat(front, [f]);
    RealOne(f, 0);
    var taken := front + [f];
    assert taken[..|taken| - 1] == front && taken[|taken| - 1] == f;
  }

  lemma NoMatchToTheEnd(call: Call, start: seq<Frame>, before: seq<Frame>, q: seq<Frame>, q': seq<Frame>)
    requires IsSuffix(start, before) && AllHeartbeats(before)
    requires Answered(call, Taken(start, before), q, q', LibraryException(OK))
    ensures q' == q + Real(start) && NoneMatches(call, start)
  {
    assert start == Taken(start, before) + before;
    SkipHeartbeats(Taken(start, before), before, 0);
  }
}
