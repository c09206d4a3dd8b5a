/**
  A whole request and its reply (`simple_rpc_inner` in amqp_socket.c): the request is sent without a
  deadline, and the reply is awaited up to one.
 */
module TimedRpc {
  import opened Wire
  import opened Framing
  import opened FrameCodec
  import opened FrameQueue
  import opened Connection
  import opened Deadlines
  import opened Sleeping
  import opened Timeline
  import opened Sender
  import opened Rpc

  /** From `mid`, when the request had been sent, to the reply. */
  predicate Replied(call: Call, mid: View, now: View, r: Reply)
  {
    if now.broken then
      && r.LibraryException? && mid.ahead.error == Some(r.status)
      && now.queue == mid.queue + Real(mid.ahead.frames) && NoneMatches(call, mid.ahead.frames)
    else
      && IsSuffix(mid.ahead.frames, now.ahead.frames) && now.ahead.error == mid.ahead.error
      && Answered(call, Taken(mid.ahead.frames, now.ahead.frames), mid.queue, now.queue, r)
  }

  /**
    In any run, from `mid` to the reply: the real frames among those taken off the stream are the ones queued,
    in order, and last the reply; and the gaps account for all that was overwritten.
   */
  ghost predicate AccountedReply(cfg: Config, mid: View, now: View, r: Reply, taken: seq<Frame>)
  {
    && mid.queue <= now.queue && mid.gaps <= now.gaps
    && Accounted(cfg, mid.ahead, now.gaps[|mid.gaps|..], End(now, if r.LibraryException? then r.status else OK), taken)
    && Real(taken) == Real(now.queue[|mid.queue|..]) + (if r.LibraryException? then [] else [r.frame])
  }

  lemma NothingAccounted(cfg: Config, mid: View)
    requires !mid.broken
    ensures AccountedReply(cfg, mid, mid, LibraryException(OK), [])
  {
    AccountedNothing(cfg, mid.ahead);
    assert mid.gaps[|mid.gaps|..] == [] && mid.queue[|mid.queue|..] == [];
  }

  lemma AccountedFrame(
      cfg: Config, mid: View, b: View, d: View, heartbeat: int, deadline: UInt64, w: Waited, before: seq<Frame>, more: seq<Frame>)
    requires AccountedReply(cfg, mid, b, LibraryException(OK), before) && !b.broken
    requires KeptByFrame(cfg, b, d, heartbeat, deadline, w, more) && (w.Delivered? ==> !w.frame.Heartbeat? && !d.broken)
    ensures match w
            case Refused(st) => AccountedReply(cfg, mid, d, LibraryException(st), before + more)
            case Delivered(f) =>
              && AccountedReply(cfg, mid, d, Normal(f), before + more) && AccountedReply(cfg, mid, d, ServerException(f), before + more)
              && AccountedReply(cfg, mid, d.(queue := d.queue + [f]), LibraryException(OK), before + more)
  {
    hide Real, Accounted, InTime, OnlyReading, Untimed, Near;
    AccountedThen(cfg, mid.ahead, b.gaps[|mid.gaps|..], b.ahead, before, d.gaps[|b.gaps|..],
                  End(d, if w.Refused? then w.status else OK), more);
    assert d.gaps[|mid.gaps|..] == b.gaps[|mid.gaps|..] + d.gaps[|b.gaps|..];
    var q1, q2 := b.queue[|mid.queue|..], d.queue[|b.queue|..];
    assert d.queue[|mid.queue|..] == q1 + q2;
    RealOfConcat(before, more);
    RealOfConcat(q1, q2);
    if w.Delivered? {
      assert (d.queue + [w.frame])[|mid.queue|..] == (q1 + q2) + [w.frame];
      RealOfConcat(q1 + q2, [w.frame]);
      RealOne(w.frame, 0);
    }
  }

  lemma NotYetReplied(call: Call, mid: View)
    requires !mid.broken
    ensures Replied(call, mid, mid, LibraryException(OK))
  {
    NoFrameYet(call, mid.ahead.frames, mid.queue);
  }

  /** One frame more, or none. */
  lemma RepliedMore(
      call: Call, cfg: Config, mid: View, b: View, d: View, heartbeat: int, deadline: UInt64, w: Waited, taken: seq<Frame>)
    requires Replied(call, mid, b, LibraryException(OK)) && !b.broken
    requires KeptByFrame(cfg, b, d, heartbeat, deadline, w, taken) && d.diversions == b.diversions
    ensures match w
            case Refused(st) => Replied(call, mid, d, LibraryException(st))
            case Delivered(f) =>
              !d.broken ==>
                if Matches(call, f) then Replied(call, mid, d, Verdict(call, f))
                else Replied(call, mid, d.(queue := d.queue + [f]), LibraryException(OK))
  {
    hide Matches, Real, Answered, Accounted, InTime, OnlyReading, AllHeartbeats, IsSuffix, Taken;
    if d.broken {
      NoMatchToTheEnd(call, mid.ahead.frames, b.ahead.frames, mid.queue, b.queue);
    } else {
      OneMoreFrame(call, mid.ahead.frames, b.ahead, d.ahead, mid.queue, b.queue, w);
    }
  }

  /**
    The whole request is accepted once, before anything else, or the error of the send is returned; what
    arrived meanwhile is queued. The reply is the first matching frame read after it, and all frames before
    that are queued in arrival order, unless a heartbeat sent on the way went on to receive. In that case too the
    frames taken off the stream are those queued, in order, and the reply, and the gaps say what was lost.
   */
  method SimpleRpc(t: TimedConnection, call: Call, f: Outgoing, deadline: UInt64) 
      returns (r: Reply, ghost sent: Status, ghost mid: View, ghost taken: seq<Frame>)
    requires t.Valid() && !t.c.broken && Sendable(t.c.cfg, f)
    modifies t, t.c`reader, t.c`buffered, t.c`script, t.c`broken, t.c.queue, t.c.queue.links
    ensures t.Valid()
    ensures KeptBySend(old(t.View()), mid.(nextSend := old(t.nextSend)), t.heartbeat, INFINITE, sent)
    ensures sent != OK ==>
              && r == LibraryException(sent) && old(t.accepted) <= t.accepted
              && t.accepted <= old(t.accepted) + if EncodeFrame(t.c.cfg, f).Written? then EncodeFrame(t.c.cfg, f).bytes else []
    ensures sent == OK ==>
              && EncodeFrame(t.c.cfg, f).Written? && !mid.broken
              && old(t.accepted) + EncodeFrame(t.c.cfg, f).bytes <= t.accepted
              && OnlyHeartbeats(t.accepted[|old(t.accepted) + EncodeFrame(t.c.cfg, f).bytes|..], if r.LibraryException? then r.status else OK)
              && t.diversions >= mid.diversions && AccountedReply(t.c.cfg, mid, t.View(), r, taken)
              && (t.diversions == mid.diversions ==> Replied(call, mid, t.View(), r))
              && (r == LibraryException(Timeout) && (t.heartbeat > 0 || Near(deadline, mid.now)) ==>
                    deadline != INFINITE && t.now + NS_PER_MS > deadline)
    // the method that ended the wait, by its class and method number
    ensures r.Normal? ==>
              && r.frame.Method? && r.frame.id in call.replies
              && (r.frame.channel == call.channel || (r.frame.channel == 0 && r.frame.id == 10 * 65536 + 50))
    ensures r.ServerException? ==>
              && r.frame.Method? && r.frame.id !in call.replies
              && ((r.frame.channel == call.channel && r.frame.id == 20 * 65536 + 40)
                  || (r.frame.channel == 0 && r.frame.id == 10 * 65536 + 50))
    // nothing that would have ended the wait has been queued since the request was sent
    ensures sent == OK && t.diversions == mid.diversions ==>
              && mid.queue <= t.c.queue.Contents()
              && forall f <- t.c.queue.Contents()[|mid.queue|..] :: f.Method? ==>
                    && (f.channel == call.channel ==> f.id !in call.replies && f.id != 20 * 65536 + 40)
                    && (f.channel == 0 ==> f.id != 10 * 65536 + 50)
  {
    hide Feed, ScriptBytes, ValidReader, IncomingOf, Queue.Valid, Queue.Contents, KeptBySend, KeptByFrame, Replied, EncodeFrame;
    hide AccountedReply, Near, SocketTrouble, TimedConnection.Timely, AmqpConnection.Ahead, Stalled, TookChunk, LosesChunk, LostInWait, Matches, Sendable, OnlyHeartbeats;
    ghost var took;
    var st;
    st, took := t.SendFrame(f, INFINITE);
    sent, mid, taken := st, t.View(), [];
    if st != OK {
      return LibraryException(st), sent, mid, taken;
    }
    FrameFailureIsError(t.c.cfg, f);
    ghost var bytes := EncodeFrame(t.c.cfg, f).bytes;
    assert bytes[..took] == bytes;
    r, taken := AwaitTimedReply(t, call, deadline);
  }

  /** Waiting for the reply, from the moment the request has been sent. */
  method AwaitTimedReply(t: TimedConnection, call: Call, deadline: UInt64) returns (r: Reply, ghost taken: seq<Frame>)
    requires t.Valid() && !t.c.broken
    modifies t, t.c`reader, t.c`buffered, t.c`script, t.c`broken, t.c.queue, t.c.queue.links
    ensures old(t.accepted) <= t.accepted
    ensures OnlyHeartbeats(t.accepted[|old(t.accepted)|..], if r.LibraryException? then r.status else OK)
    ensures t.Valid() && t.diversions >= old(t.diversions)
    ensures AccountedReply(t.c.cfg, old(t.View()), t.View(), r, taken)
    ensures t.diversions == old(t.diversions) ==> Replied(call, old(t.View()), t.View(), r)
    ensures r == LibraryException(Timeout) && (t.heartbeat > 0 || Near(deadline, old(t.now))) ==>
              deadline != INFINITE && t.now + NS_PER_MS > deadline
    ensures r.Normal? ==>
              && r.frame.Method? && r.frame.id in call.replies
              && (r.frame.channel == call.channel || (r.frame.channel == 0 && r.frame.id == 10 * 65536 + 50))
    ensures r.ServerException? ==>
              && r.frame.Method? && r.frame.id !in call.replies
              && ((r.frame.channel == call.channel && r.frame.id == 20 * 65536 + 40)
                  || (r.frame.channel == 0 && r.frame.id == 10 * 65536 + 50))
    ensures t.diversions == old(t.diversions) ==>
              && old(t.c.queue.Contents()) <= t.c.queue.Contents()
              && forall f <- t.c.queue.Contents()[|old(t.c.queue.Contents())|..] :: f.Method? ==>
                    && (f.channel == call.channel ==> f.id !in call.replies && f.id != 20 * 65536 + 40)
                    && (f.channel == 0 ==> f.id != 10 * 65536 + 50)
  {
    hide Feed, ScriptBytes, ValidReader, IncomingOf, Queue.Valid, Queue.Contents, KeptByFrame, Replied, AccountedReply;
    hide Near, SocketTrouble, TimedConnection.Timely, AmqpConnection.Ahead, LosesChunk, LostInWait, Matches, OnlyHeartbeats;
    ghost var mid := t.View();
    taken := [];
    NotYetReplied(call, mid);
    NothingAccounted(t.c.cfg, mid);
    NoHeartbeats(t.accepted, OK);
    while true
      invariant t.Valid() && !t.c.broken && t.now >= mid.now
      invariant forall i :: 0 <= i < |t.c.queue.links| ==> t.c.queue.links[i] in old(t.c.queue.links) || fresh(t.c.queue.links[i])
      invariant old(t.accepted) <= t.accepted && OnlyHeartbeats(t.accepted[|old(t.accepted)|..], OK)
      invariant t.diversions >= mid.diversions
      invariant AccountedReply(t.c.cfg, mid, t.View(), LibraryException(OK), taken)
      invariant t.diversions == mid.diversions ==> Replied(call, mid, t.View(), LibraryException(OK))
      decreases |t.c.script|, |t.c.buffered|
    {
      ghost var b, sent := t.View(), t.accepted;
      NearStays(deadline, mid.now, t.now);
      ghost var more;
      var w;
      w, more := t.WaitFrame(deadline);
      MoreHeartbeats(old(t.accepted), sent, t.accepted, if w.Refused? then w.status else OK);
      ghost var d := t.View();
      FrameCounts(t.c.cfg, b, d, t.heartbeat, deadline, w, more);
      AccountedFrame(t.c.cfg, mid, b, d, t.heartbeat, deadline, w, taken, more);
      taken := taken + more;
      if d.diversions == mid.diversions {
        RepliedMore(call, t.c.cfg, mid, b, d, t.heartbeat, deadline, w, more);
      }
      if w.Refused? {
        if d.diversions == mid.diversions {
          RepliedMeans(call, mid, d, LibraryException(w.status));
        }
        return LibraryException(w.status), taken;
      }
      if Matches(call, w.frame) {
        VerdictMeans(call, w.frame);
        if d.diversions == mid.diversions {
          RepliedMeans(call, mid, d, Verdict(call, w.frame));
        }
        return Verdict(call, w.frame), taken;
      }
      t.c.queue.AppendBehindLast(w.frame);
      assert t.View() == d.(queue := d.queue + [w.frame]);
    }
  }

  lemma FrameCounts(cfg: Config, b: View, d: View, heartbeat: int, deadline: UInt64, w: Waited, taken: seq<Frame>)
    requires KeptByFrame(cfg, b, d, heartbeat, deadline, w, taken)
    ensures d.now >= b.now && d.diversions >= b.diversions
  {
    hide Accounted, InTime, OnlyReading, Real;
  }

  lemma RepliedMeans(call: Call, mid: View, now: View, r: Reply)
    requires Replied(call, mid, now, r)
    ensures mid.queue <= now.queue
    ensures forall f <- now.queue[|mid.queue|..] :: f.Method? ==>
              && (f.channel == call.channel ==> f.id !in call.replies && f.id != 20 * 65536 + 40)
              && (f.channel == 0 ==> f.id != 10 * 65536 + 50)
  {
    hide Real, Matches, NoneMatches, Answered, IsSuffix;
    if now.broken {
      NoneQueued(call, mid.ahead.frames, mid.queue, now.queue);
    } else {
      AnsweredMeans(call, Taken(mid.ahead.frames, now.ahead.frames), mid.queue, now.queue, r);
    }
  }
}
