/**
  Sending and waiting with deadlines and heartbeats (amqp_connection.c, amqp_socket.c).
 */
module Sender {
  import opened Wire
  import opened Generator
  import opened Framing
  import opened FrameCodec
  import opened FrameQueue
  import opened Connection
  import opened Deadlines
  import opened Sleeping
  import opened Timeline

  predicate SocketTrouble(script: seq<Event>)
  {
    forall i :: 0 <= i < |script| ==> script[i].Trouble? ==> IsSocketFailure(script[i].status)
  }

  datatype Sent = Sent(count: nat) | NotSent(status: Status)

  lemma AcceptMore(before: Bytes, buf: Bytes, took: nat, n: nat)
    requires took + n <= |buf|
    ensures before + buf[..took] + buf[took..][..n] == before + buf[..took + n]
    ensures buf[took..][n..] == buf[took + n..]
    ensures took + n == 0 ==> before == before + buf[..0] && buf[0..] == buf
  {
    assert buf[..took] + buf[took..][..n] == buf[..took + n];
  }

  lemma FrameIsNotEmpty(cfg: Config, f: Outgoing)
    requires Sendable(cfg, f) && cfg.frameMax >= 20 && EncodeFrame(cfg, f).Written?
    ensures EncodeFrame(cfg, f).bytes != []
  {
  }

  /** The heartbeat frame of section 4.2.7 of AMQP 0-9-1, byte by byte. */
  lemma HeartbeatEncodes(cfg: Config)
    requires cfg.frameMax >= 20
    ensures var f := SendHeartbeat(0);
            Sendable(cfg, f) && EncodeFrame(cfg, f) == Written([8, 0, 0, 0, 0, 0, 0, 206])
  {
    hide Be;
    NetworkOrder(0, 0, 0, 0);
    assert EncodeFrame(cfg, SendHeartbeat(0)).bytes == [8] + [0, 0] + [0, 0, 0, 0] + [] + [206];
  }

  /** Heartbeats and nothing else: whole ones, unless sending the last of them has failed. */
  predicate OnlyHeartbeats(sent: Bytes, st: Status)
  {
    && (st == OK || st == Timeout || st == HeartbeatTimeout ==> |sent| % 8 == 0)
    && forall i :: 0 <= i < |sent| ==> sent[i] == if i % 8 == 0 then 8 else if i % 8 == 7 then 206 else 0
  }

  lemma HeartbeatIsOnly(before: Bytes, after: Bytes, st: Status)
    requires before <= after <= before + [8, 0, 0, 0, 0, 0, 0, 206]
    requires (st == OK ==> |after| == |before| || |after| == |before| + 8) && st != Timeout && st != HeartbeatTimeout
    ensures OnlyHeartbeats(after[|before|..], st)
  {
    var h := [8, 0, 0, 0, 0, 0, 0, 206];
    var sent := after[|before|..];
    assert (before + h)[|before|..] == h && sent == h[..|sent|];
  }

  lemma NoHeartbeats(before: Bytes, st: Status)
    ensures OnlyHeartbeats(before[|before|..], st)
  {
  }

  lemma WholeHeartbeats(sent: Bytes, st: Status)
    requires OnlyHeartbeats(sent, OK)
    ensures OnlyHeartbeats(sent, st)
  {
  }

  lemma SameByte(n: nat, i: nat)
    requires n % 8 == 0
    ensures (n + i) % 8 == i % 8
  {
  }

  lemma MoreHeartbeats(a: Bytes, b: Bytes, c: Bytes, st: Status)
    requires a <= b <= c && OnlyHeartbeats(b[|a|..], OK) && OnlyHeartbeats(c[|b|..], st)
    ensures a <= c && OnlyHeartbeats(c[|a|..], st)
  {
    var n := |b| - |a|;
    assert |c| - |a| == n + (|c| - |b|);
    forall i | 0 <= i < |c| - |a|
      ensures c[|a|..][i] == if i % 8 == 0 then 8 else if i % 8 == 7 then 206 else 0
    {
      if i < n {
        assert c[|a|..][i] == b[|a|..][i];
      } else {
        SameByte(n, i - n);
        assert c[|a|..][i] == c[|b|..][i - n];
      }
    }
  }

  class TimedConnection {
    const c: AmqpConnection
    const heartbeat: int
    var nextRecv: UInt64
    var nextSend: UInt64
    // the oracles
    var now: nat
    var ticks: seq<Tick>
    var polls: seq<Poll>
    var receiveBlocks: seq<bool>
    var attempts: seq<Attempt>
    /** All bytes the socket has accepted. */
    var accepted: Bytes
    /** The clock at the latest successful read, or when the connection was tuned. */
    ghost var readAt: nat
    /** The clock could not be read behind the latest read, so the receive deadline does not reflect it. */
    ghost var missed: bool
    ghost var sleeps: seq<Sleep>
    /** How often `amqp_try_recv` was called. */
    ghost var diversions: nat
    /** Where a receive has overwritten bytes not yet parsed. */
    ghost var gaps: seq<Gap>

    ghost predicate Timely()
      reads this
    {
      && 0 < now && heartbeat <= 65535 && readAt <= now
      && (heartbeat <= 0 ==> nextRecv == nextSend == INFINITE)
      && (heartbeat > 0 ==>
            && nextSend < INFINITE && nextRecv < INFINITE && nextRecv <= now + 2 * heartbeat * NS_PER_S
            && (!missed ==> readAt + 2 * heartbeat * NS_PER_S <= nextRecv))
    }

    ghost predicate Valid()
      reads this, c, c.queue, c.queue.links
    {
      Timely() && c.Valid() && SocketTrouble(c.script) && c.cfg.frameMax >= 20
    }

    /** A connection tuned to a heartbeat interval (`amqp_tune_connection`) at a time the clock can be read. */
    constructor (
        c: AmqpConnection, heartbeat: int, now: nat, ticks: seq<Tick>, polls: seq<Poll>, receiveBlocks: seq<bool>,
        attempts: seq<Attempt>)
      requires c.Valid() && SocketTrouble(c.script) && c.cfg.frameMax >= 20
      requires 0 < now <= CLOCK_MAX && heartbeat <= 65535
      ensures Valid() && this.c == c && accepted == [] && sleeps == [] && gaps == [] && readAt == now && !missed
      ensures this.heartbeat == if heartbeat < 0 then 0 else heartbeat
      ensures this.now == now && this.ticks == ticks && this.polls == polls
      ensures this.receiveBlocks == receiveBlocks && this.attempts == attempts
      ensures heartbeat > 0 ==> nextSend == now + heartbeat * NS_PER_S && nextRecv == now + 2 * heartbeat * NS_PER_S
    {
      this.c, this.now, this.ticks, this.polls, this.receiveBlocks, this.attempts := c, now, ticks, polls, receiveBlocks, attempts;
      this.heartbeat := if heartbeat < 0 then 0 else heartbeat;
      nextSend, nextRecv := INFINITE, INFINITE;
      if heartbeat > 0 {
        SecondsFromNowIsExact(now, heartbeat);
        SecondsFromNowIsExact(now, 2 * heartbeat);
        nextSend, nextRecv := SecondsFromNow(now, heartbeat).point, SecondsFromNow(now, 2 * heartbeat).point;
      }
      accepted, readAt, missed, sleeps, diversions, gaps := [], now, false, [], 0, [];
    }

    /** Reads the clock; 0 if that fails. */
    method ReadClock() returns (t: UInt64)
      requires Timely()
      modifies this`now, this`ticks
      ensures Timely() && now >= old(now)
      ensures t == 0 || t == now <= CLOCK_MAX
      ensures old(ticks) == [] ==> ticks == [] && now == old(now) && (now <= CLOCK_MAX ==> t == now)
    {
      if ticks != [] {
        var tick := ticks[0];
        ticks := ticks[1..];
        if tick.Unreadable? {
          return 0;
        }
        now := now + tick.ns;
      }
      t := if now <= CLOCK_MAX then now else 0;
    }

    /** One call of `poll`; nothing if it was interrupted. */
    method PollFor(ms: int) returns (st: Option<Status>)
      requires Timely() && ms >= -1
      modifies this`now, this`polls
      ensures Timely() && now >= old(now) && st != Some(HeartbeatTimeout)
      ensures st == Some(Timeout) ==> ms >= 0 && now >= old(now) + ms * NS_PER_MS
      ensures st == None ==> |polls| < |old(polls)|
      ensures old(polls) != [] && old(polls)[0].Quiet? && ms >= 0 ==>
                st == Some(Timeout) && polls == old(polls)[1..] && now == old(now) + ms * NS_PER_MS + old(polls)[0].after
    {
      if polls == [] {
        return Some(SocketError);
      }
      var p := polls[0];
      polls := polls[1..];
      match p {
        case PollFails =>
          return Some(SocketError);
        case Ready(after) =>
          now := now + after;
          return Some(OK);
        case Interrupted(after) =>
          now := now + after;
          return None;
        case Quiet(after) =>
          if ms >= 0 {
            now := now + ms * NS_PER_MS + after;
            return Some(Timeout);
          }
          now := now + after;
          return None;
      }
    }

    /** Nothing happens before the deadline. */
    ghost predicate Silent(deadline: UInt64)
      reads this
    {
      ticks == [] && polls != [] && polls[0].Quiet? && now <= CLOCK_MAX && deadline < INFINITE && Near(deadline, now)
    }

    /** One round of `amqp_poll`; nothing if it was interrupted. */
    method PollOnce(deadline: UInt64, ghost purpose: Purpose) returns (st: Option<Status>)
      requires Timely()
      modifies this`now, this`ticks, this`polls, this`sleeps
      ensures Timely() && now >= old(now)
      ensures st == Some(Timeout) && Near(deadline, old(now)) ==> deadline != INFINITE && now + NS_PER_MS > deadline
      ensures st != Some(HeartbeatTimeout) && (st == None ==> |polls| < |old(polls)|)
      ensures Slept(old(sleeps), sleeps, deadline, purpose, nextRecv, nextSend, Near(deadline, old(now)))
      ensures old(Silent(deadline)) ==>
                && st == Some(Timeout) && ticks == [] && polls == old(polls)[1..]
                && now <= Latest(old(now), deadline) + old(polls)[0].after
                && sleeps == old(sleeps) + [Sleep(purpose, old(now), MsUntil(deadline, old(now)), nextRecv, nextSend)]
    {
      hide Slept, MsUntil, EndsBy;
      SleepNothing(sleeps);
      NearStays(deadline, now, now);
      var t: UInt64 := 0;
      if deadline != INFINITE && deadline != 0 {
        t := ReadClock();
      }
      NearStays(deadline, old(now), now);
      var ms := MsUntil(deadline, t);
      ghost var sleep := Sleep(purpose, now, ms, nextRecv, nextSend);
      MsUntilValues(deadline, t);
      if Near(deadline, old(now)) {
        SleepUntil(deadline, t, sleep);
        if deadline == 0 && now <= CLOCK_MAX {
          MsUntilValues(deadline, now);
        }
      }
      if ms < -1 {
        return Some(CodeStatus(ms));
      }
      SleepMore(sleeps, sleeps, deadline, purpose, nextRecv, nextSend, Near(deadline, old(now)), sleep);
      sleeps := sleeps + [sleep];
      st := PollFor(ms);
    }

    /** `amqp_poll`: an interrupted call starts again with the time that is left. */
    method AwaitSocket(deadline: UInt64, ghost purpose: Purpose) returns (st: Status)
      requires Timely()
      modifies this`now, this`ticks, this`polls, this`sleeps
      ensures Timely() && now >= old(now)
      ensures st == Timeout && Near(deadline, old(now)) ==> deadline != INFINITE && now + NS_PER_MS > deadline
      ensures st != HeartbeatTimeout
      ensures Slept(old(sleeps), sleeps, deadline, purpose, nextRecv, nextSend, Near(deadline, old(now)))
      ensures old(Silent(deadline)) ==>
                && st == Timeout && ticks == [] && polls == old(polls)[1..] && now <= Latest(old(now), deadline) + old(polls)[0].after
                && sleeps == old(sleeps) + [Sleep(purpose, old(now), MsUntil(deadline, old(now)), nextRecv, nextSend)]
    {
      hide Slept, MsUntil, EndsBy, Near, Latest;
      SleepNothing(sleeps);
      ghost var near, silent := Near(deadline, now), Silent(deadline);
      while true
        invariant Timely() && now >= old(now) && Slept(old(sleeps), sleeps, deadline, purpose, nextRecv, nextSend, near)
        invariant silent ==> Silent(deadline) && now == old(now) && polls == old(polls) && sleeps == old(sleeps)
        decreases |polls|
      {
        ghost var before, t := sleeps, now;
        NearStays(deadline, old(now), t);
        var polled := PollOnce(deadline, purpose);
        SleepLonger(old(sleeps), before, sleeps, deadline, purpose, nextRecv, nextSend, near);
        if polled.Some? {
          return polled.value;
        }
      }
    }

    /** One attempt of `amqp_try_send`, and the poll behind it if it would block. */
    method SendOnce(left: Bytes, deadline: UInt64) returns (st: Status, n: nat)
      requires Timely() && left != [] && deadline <= nextRecv && attempts != []
      modifies this`now, this`ticks, this`polls, this`sleeps, this`attempts, this`accepted
      ensures Timely() && now >= old(now) && OnlySending(old(sleeps), sleeps, deadline, Near(deadline, old(now)))
      ensures n <= |left| && accepted == old(accepted) + left[..n] && attempts == old(attempts)[1..]
      ensures st == Timeout && Near(deadline, old(now)) ==> deadline != INFINITE && now + NS_PER_MS > deadline
      ensures st != HeartbeatTimeout && (st != OK ==> n == 0)
      ensures old(attempts)[0].WouldBlock? && old(Silent(deadline)) ==>
                && st == Timeout && ticks == [] && polls == old(polls)[1..] && now <= Latest(old(now), deadline) + old(polls)[0].after
                && sleeps == old(sleeps) + [Sleep(Sending, old(now), MsUntil(deadline, old(now)), nextRecv, nextSend)]
      ensures old(attempts)[0].Accepts? ==>
                && st == OK && n == (if old(attempts)[0].count < |left| then old(attempts)[0].count else |left|)
                && ticks == old(ticks) && polls == old(polls) && now == old(now) && sleeps == old(sleeps)
    {
      hide Slept, OnlySending, MsUntil, Near, Latest;
      SendingNothing(sleeps, deadline, Near(deadline, now));
      var attempt := attempts[0];
      attempts := attempts[1..];
      st, n := OK, 0;
      match attempt {
        case Accepts(count) =>
          n := if count < |left| then count else |left|;
          accepted := accepted + left[..n];
        case WouldBlock =>
          ghost var before := sleeps;
          st := AwaitSocket(deadline, Sending);
          SendingMore(before, before, sleeps, deadline, nextRecv, nextSend, Near(deadline, old(now)), Near(deadline, old(now)));
        case Breaks(status) =>
          st := status;
      }
    }

    /** `amqp_try_send`: sends until everything is accepted, the deadline passes or the socket fails. */
    method TrySend(buf: Bytes, deadline: UInt64) returns (r: Sent, ghost took: nat)
      requires Timely() && buf != [] && deadline <= nextRecv
      modifies this`now, this`ticks, this`polls, this`sleeps, this`attempts, this`accepted
      ensures Timely() && now >= old(now) && OnlySending(old(sleeps), sleeps, deadline, Near(deadline, old(now)))
      ensures took <= |buf| && accepted == old(accepted) + buf[..took]
      ensures r.Sent? ==> r.count == took
      ensures |attempts| <= |old(attempts)|
      ensures r.Sent? && took < |buf| ==>
                && |attempts| < |old(attempts)|
                && (Near(deadline, old(now)) ==> deadline != INFINITE && now + NS_PER_MS > deadline)
      ensures r.NotSent? ==> took < |buf| && r.status != OK && r.status != Timeout && r.status != HeartbeatTimeout
      ensures old(attempts) != [] && old(attempts)[0].WouldBlock? && old(Silent(deadline)) ==>
                && r == Sent(0) && attempts == old(attempts)[1..] && ticks == [] && polls == old(polls)[1..]
                && now <= Latest(old(now), deadline) + old(polls)[0].after
                && sleeps == old(sleeps) + [Sleep(Sending, old(now), MsUntil(deadline, old(now)), nextRecv, nextSend)]
      ensures old(attempts) != [] && old(attempts)[0].Accepts? && old(attempts)[0].count >= |buf| ==>
                r == Sent(|buf|) && attempts == old(attempts)[1..] && ticks == old(ticks) && now == old(now) && sleeps == old(sleeps)
    {
      hide Slept, OnlySending, MsUntil, Near, Latest;
      took := 0;
      var left := buf;
      AcceptMore(accepted, buf, 0, 0);
      ghost var near := Near(deadline, now);
      SendingNothing(sleeps, deadline, near);
      ghost var stalls := attempts != [] && attempts[0].WouldBlock? && Silent(deadline);
      ghost var flows := attempts != [] && attempts[0].Accepts? && attempts[0].count >= |buf|;
      while true
        invariant Timely() && now >= old(now) && OnlySending(old(sleeps), sleeps, deadline, near)
        invariant took < |buf| && left == buf[took..] && accepted == old(accepted) + buf[..took]
        invariant |attempts| <= |old(attempts)|
        invariant stalls || flows ==>
                    && attempts == old(attempts) && took == 0
                    && now == old(now) && ticks == old(ticks) && polls == old(polls) && sleeps == old(sleeps)
        decreases |attempts|
      {
        if attempts == [] {
          return NotSent(SocketError), took;
        }
        ghost var before, near' := sleeps, Near(deadline, now);
        NearStays(deadline, old(now), now);
        var st, n := SendOnce(left, deadline);
        SendingStill(old(sleeps), before, sleeps, deadline, deadline, near, near');
        AcceptMore(old(accepted), buf, took, n);
        left, took := left[n..], took + n;
        if left == [] {
          return Sent(|buf|), took;
        }
        if st == Timeout {
          return Sent(|buf| - |left|), took;
        }
        if st != OK {
          return NotSent(st), took;
        }
      }
    }

    /**
      `recv_with_timeout`: every successful read moves the receive deadline. It replaces the contents of
      the socket buffer; a gap records what was overwritten.
     */
    method RecvWithTimeout(deadline: UInt64, ghost purpose: Purpose) returns (st: Status)
      requires Valid() && !c.broken
      modifies this`now, this`ticks, this`polls, this`sleeps, this`receiveBlocks, this`nextRecv, this`readAt, this`missed, this`gaps
      modifies c`buffered, c`script
      ensures Valid() && now >= old(now)
      ensures |receiveBlocks| <= |old(receiveBlocks)| && |c.script| <= |old(c.script)|
      ensures st == OK ==>
                && readAt >= old(now) && !missed && |c.script| < |old(c.script)|
                && old(c.script)[0].Chunk? && c.buffered == old(c.script)[0].bytes && c.script == old(c.script)[1..]
      ensures st != OK ==> nextRecv == old(nextRecv)
      ensures st != OK && st != TimerFailure ==> readAt == old(readAt) && missed == old(missed)
      ensures st == Timeout ==> |receiveBlocks| < |old(receiveBlocks)| && c.buffered == old(c.buffered)
      ensures st == Timeout && Near(deadline, old(now)) ==> deadline != INFINITE && now + NS_PER_MS > deadline
      ensures st != HeartbeatTimeout
      ensures Slept(old(sleeps), sleeps, deadline, purpose, old(nextRecv), nextSend, Near(deadline, old(now)))
      // nothing is lost, or exactly what the buffer held
      ensures gaps == old(gaps) ==> c.Ahead() == old(c.Ahead())
      ensures gaps != old(gaps) ==>
                && old(c.buffered) != [] && |c.script| < |old(c.script)|
                && var g := Gap(c.reader, old(c.buffered), ScriptBytes(old(c.script)));
                   gaps == old(gaps) + [g] && Overlooked(c.cfg, g) == old(c.Ahead()) && Following(c.cfg, g) == c.Ahead()
      ensures old(receiveBlocks) == [] && old(ticks) == [] && old(now) <= CLOCK_MAX && old(c.script) != [] && old(c.script)[0].Chunk? ==>
                && st == OK && receiveBlocks == [] && ticks == [] && now == old(now) && sleeps == old(sleeps)
                && (old(c.buffered) != [] ==> gaps != old(gaps))
    {
      hide Slept, Feed, ScriptBytes, ValidReader, IncomingOf, Queue.Valid, Queue.Contents, Near, Overlooked, Following, SocketTrouble;
      st := AwaitReadable(deadline, purpose);
      if st == OK {
        st := Refill();
        if st == OK {
          st := PostponeReceive();
        }
      }
    }

    /** The receive itself. */
    method Refill() returns (st: Status)
      requires c.Valid() && !c.broken && SocketTrouble(c.script)
      modifies this`gaps, c`buffered, c`script
      ensures c.Valid() && SocketTrouble(c.script)
      ensures st == OK <==> old(c.script) != [] && old(c.script)[0].Chunk?
      ensures st == OK ==> c.buffered == old(c.script)[0].bytes && c.script == old(c.script)[1..]
      ensures st != OK ==> c.buffered == old(c.buffered) && IsSocketFailure(st) && |c.script| <= |old(c.script)|
      ensures gaps == old(gaps) <==> st != OK || old(c.buffered) == []
      ensures gaps == old(gaps) ==> c.Ahead() == old(c.Ahead())
      ensures gaps != old(gaps) ==>
                var g := Gap(c.reader, old(c.buffered), ScriptBytes(old(c.script)));
                gaps == old(gaps) + [g] && Overlooked(c.cfg, g) == old(c.Ahead()) && Following(c.cfg, g) == c.Ahead()
    {
      hide Feed, ScriptBytes, ValidReader, IncomingOf, Queue.Valid;
      ghost var g := Gap(c.reader, c.buffered, ScriptBytes(c.script));
      st := c.Recv();
      if st == OK && g.overwritten != [] {
        gaps := gaps + [g];
      }
    }

    /** The attempts of `recv_with_timeout` that would block. */
    method AwaitReadable(deadline: UInt64, ghost purpose: Purpose) returns (st: Status)
      requires Timely()
      modifies this`now, this`ticks, this`polls, this`sleeps, this`receiveBlocks
      ensures Timely() && now >= old(now) && |receiveBlocks| <= |old(receiveBlocks)| && st != HeartbeatTimeout
      ensures st != OK ==> |receiveBlocks| < |old(receiveBlocks)|
      ensures st == Timeout && Near(deadline, old(now)) ==> deadline != INFINITE && now + NS_PER_MS > deadline
      ensures Slept(old(sleeps), sleeps, deadline, purpose, nextRecv, nextSend, Near(deadline, old(now)))
      ensures old(receiveBlocks) == [] ==> st == OK && receiveBlocks == [] && ticks == old(ticks) && now == old(now) && sleeps == old(sleeps)
    {
      hide Slept;
      assert Slept(sleeps, sleeps, deadline, purpose, nextRecv, nextSend, Near(deadline, now)) by { SleepNothing(sleeps); }
      while receiveBlocks != []
        invariant Timely() && now >= old(now) && |receiveBlocks| <= |old(receiveBlocks)|
        invariant Slept(old(sleeps), sleeps, deadline, purpose, nextRecv, nextSend, Near(deadline, old(now)))
        invariant old(receiveBlocks) == [] ==> receiveBlocks == [] && ticks == old(ticks) && now == old(now) && sleeps == old(sleeps)
        decreases |receiveBlocks|
      {
        var blocks := receiveBlocks[0];
        receiveBlocks := receiveBlocks[1..];
        if !blocks {
          return OK;
        }
        ghost var before := sleeps;
        st := AwaitSocket(deadline, purpose);
        SleepLonger(old(sleeps), before, sleeps, deadline, purpose, nextRecv, nextSend, Near(deadline, old(now)));
        if st != OK {
          return;
        }
      }
      return OK;
    }

    /** The receive deadline after a successful read: two heartbeat intervals from now. */
    method PostponeReceive() returns (st: Status)
      requires Timely()
      modifies this`now, this`ticks, this`nextRecv, this`readAt, this`missed
      ensures Timely() && now >= old(now) && readAt == old(now)
      ensures st == if missed then TimerFailure else OK
      ensures st != OK ==> nextRecv == old(nextRecv)
      ensures old(ticks) == [] && old(now) <= CLOCK_MAX ==> st == OK && ticks == [] && now == old(now)
    {
      readAt, missed := now, true;
      if heartbeat <= 0 {
        missed := false;
        return OK;
      }
      var t := ReadClock();
      if t == 0 {
        return TimerFailure;
      }
      SecondsFromNowIsExact(t, 2 * heartbeat);
      nextRecv, missed := SecondsFromNow(t, 2 * heartbeat).point, false;
      return OK;
    }

    /** The send deadline after a complete frame was sent. */
    method PostponeSend() returns (st: Status)
      requires Timely()
      modifies this`now, this`ticks, this`nextSend
      ensures Timely() && now >= old(now) && (st == OK || st == TimerFailure)
      ensures st == OK && heartbeat > 0 ==> nextSend == now + heartbeat * NS_PER_S
      ensures st != OK ==> nextSend == old(nextSend)
      ensures old(ticks) == [] && old(now) <= CLOCK_MAX ==> st == OK && ticks == [] && now == old(now)
    {
      if heartbeat <= 0 {
        return OK;
      }
      var t := ReadClock();
      if t == 0 {
        return TimerFailure;
      }
      SecondsFromNowIsExact(t, heartbeat);
      nextSend := SecondsFromNow(t, heartbeat).point;
      return OK;
    }

    /** `amqp_try_recv`: its deadline, 0 seconds from now, is "never", so it blocks until something arrives. */
    method TryRecv() returns (st: Status)
      requires Valid() && !c.broken
      modifies this`now, this`ticks, this`polls, this`sleeps, this`receiveBlocks, this`nextRecv, this`readAt, this`missed, this`diversions
      modifies this`gaps, c`reader, c`buffered, c`script, c`broken, c.queue, c.queue.links
      ensures Valid() && now >= old(now) && (c.broken ==> st != OK) && gaps == old(gaps)
      ensures |receiveBlocks| <= |old(receiveBlocks)| && |c.script| <= |old(c.script)|
      ensures forall i :: 0 <= i < |c.queue.links| ==> c.queue.links[i] in old(c.queue.links) || fresh(c.queue.links[i])
      ensures st != Timeout && st != HeartbeatTimeout && diversions == old(diversions) + 1
      ensures missed ==> old(missed) || st == TimerFailure
      ensures Slept(old(sleeps), sleeps, INFINITE, Draining, old(nextRecv), nextSend, true)
      ensures Drained(old(c.Ahead()), if c.broken then Incoming([], Some(st)) else c.Ahead(), old(c.queue.Contents()), c.queue.Contents())
      ensures old(receiveBlocks) == [] && old(ticks) == [] && old(now) <= CLOCK_MAX && old(c.buffered) == []
              && old(c.script) != [] && old(c.script)[0].Chunk? ==>
                && st == OK && receiveBlocks == [] && ticks == [] && now == old(now) && sleeps == old(sleeps)
                && c.reader == old(c.reader) && c.queue.Contents() == old(c.queue.Contents())
                && c.buffered == old(c.script)[0].bytes && c.script == old(c.script)[1..]
    {
      hide Slept, Feed, ScriptBytes, ValidReader, IncomingOf, Queue.Valid, Queue.Contents, Drained, IsSuffix, Taken, Near, SocketTrouble;
      hide Overlooked, Following;
      ghost var start, q := c.Ahead(), c.queue.Contents();
      NeverIsNear(now);
      SleepNothing(sleeps);
      diversions := diversions + 1;
      var failure := c.QueueBuffered();
      if failure.Some? {
        DrainedAll(start, failure.value, q);
        return failure.value;
      }
      DrainedTaken(start, c.Ahead(), q);
      NeverIsNear(now);
      var never := SecondsFromNow(0, 0);
      st := RecvWithTimeout(never.point, Draining);
    }

    /** The deadline is near enough for the millisecond count not to wrap round. */
    ghost predicate Reliable(deadline: UInt64)
      reads this
    {
      heartbeat > 0 || Near(deadline, now)
    }

    /** The whole state but what the socket has accepted. */
    ghost function View(): View
      requires ValidReader(c.cfg, c.reader)
      reads this, c, c.queue, c.queue.links
    {
      Snapshot(now, ticks, polls, receiveBlocks, attempts, nextRecv, nextSend, readAt, missed, sleeps, diversions, gaps,
           c.reader, c.buffered, c.script, c.broken, c.queue.Contents(), c.Ahead())
    }

    /** The receive of a blocked send. */
    method Divert(ghost deadline: UInt64) returns (st: Status)
      requires Valid() && !c.broken && heartbeat > 0
      modifies this`now, this`ticks, this`polls, this`sleeps, this`receiveBlocks, this`nextRecv, this`readAt, this`missed, this`diversions
      modifies this`gaps, c`reader, c`buffered, c`script, c`broken, c.queue, c.queue.links
      ensures Valid() && (c.broken ==> st != OK) && st != Timeout && st != HeartbeatTimeout
      ensures forall i :: 0 <= i < |c.queue.links| ==> c.queue.links[i] in old(c.queue.links) || fresh(c.queue.links[i])
      ensures KeptBySend(old(View()), View(), heartbeat, deadline, st)
      ensures ChunkIsThere(old(View())) ==> st == OK && ChunkArrives(old(View()), View())
    {
      hide OnlySending, Slept, Feed, ScriptBytes, ValidReader, IncomingOf, Queue.Valid, Queue.Contents, Near, SocketTrouble;
      hide Drained, KeptBySend, AmqpConnection.Ahead;
      ghost var b := View();
      st := TryRecv();
      DrainingIsKept(b, View(), heartbeat, deadline, st);
    }

    /** One round of `amqp_send_frame_inner`: a send, and a receive if the receive deadline has passed. */
    method SendRound(left: Bytes, deadline: UInt64) returns (st: Option<Status>, rest: Bytes, ghost n: nat)
      requires Valid() && !c.broken && left != []
      modifies this, c`reader, c`buffered, c`script, c`broken, c.queue, c.queue.links
      ensures Valid() && (c.broken ==> st.Some? && st != Some(OK))
      ensures forall i :: 0 <= i < |c.queue.links| ==> c.queue.links[i] in old(c.queue.links) || fresh(c.queue.links[i])
      ensures n <= |left| && accepted == old(accepted) + left[..n] && (st == Some(OK) <==> n == |left|)
      ensures st == None ==> |attempts| < |old(attempts)| && rest == left[n..]
      ensures st == Some(Timeout) && old(Reliable(deadline)) ==> deadline != INFINITE && now + NS_PER_MS > deadline
      ensures st != Some(HeartbeatTimeout)
      ensures KeptBySend(old(View()), View(), heartbeat, deadline, if st == None then OK else st.value)
      ensures Stalled(old(View()), heartbeat, |left|) && deadline == INFINITE ==> 
                st == None && n == 0 && attempts == old(attempts)[1..] && TookChunk(old(View()), View())
      ensures old(attempts) != [] && old(attempts)[0].Accepts? && old(attempts)[0].count >= |left| ==>
                st == Some(OK) && View() == old(View()).(polls := polls, attempts := old(attempts)[1..])
    {
      hide Feed, ScriptBytes, ValidReader, IncomingOf, Queue.Valid, Queue.Contents, SocketTrouble;
      hide Near, End;
      hide TimedConnection.Timely, KeptBySend, AmqpConnection.Ahead, Stalled, TookChunk, Latest, ChunkArrives, ChunkIsThere, SendStalls;
      ghost var a := View();
      ghost var stalled := Stalled(a, heartbeat, |left|) && deadline == INFINITE;
      var r, last;
      r, last, n := SendPart(left, deadline);
      rest := left;
      ghost var b := View();
      if r.NotSent? {
        KeptWithStatus(a, b, heartbeat, deadline, r.status);
        return Some(r.status), rest, n;
      }
      if r.count == |left| {
        return Some(OK), rest, n;
      }
      if last {
        KeptWithStatus(a, b, heartbeat, deadline, Timeout);
        return Some(Timeout), rest, n;
      }
      if stalled {
        StalledChunk(a, b, heartbeat, |left|);
      }
      var received := Divert(deadline);
      KeptTwice(a, b, View(), heartbeat, deadline, received);
      if stalled {
        StallTakes(a, b, View(), heartbeat, |left|);
      }
      if received == Timeout {
        assert false;
      } else if received != OK {
        return Some(received), rest, n;
      }
      return None, left[r.count..], n;
    }

    /** The send, up to the earlier of the two deadlines; `last` if that was the caller's. */
    method SendPart(left: Bytes, deadline: UInt64) returns (r: Sent, last: bool, ghost n: nat)
      requires Valid() && !c.broken && left != []
      modifies this`now, this`ticks, this`polls, this`sleeps, this`attempts, this`accepted
      ensures Valid() && now >= old(now)
      ensures n <= |left| && accepted == old(accepted) + left[..n]
      ensures r.Sent? ==> r.count == n
      ensures r.Sent? && n < |left| ==> |attempts| < |old(attempts)|
      ensures r.Sent? && n < |left| && last && old(Reliable(deadline)) ==> deadline != INFINITE && now + NS_PER_MS > deadline
      ensures !last ==> heartbeat > 0
      ensures r.NotSent? ==> n < |left| && r.status != OK && r.status != Timeout && r.status != HeartbeatTimeout
      ensures KeptBySend(old(View()), View(), heartbeat, deadline, OK)
      ensures Stalled(old(View()), heartbeat, |left|) && deadline == INFINITE ==>
                r == Sent(0) && !last && attempts == old(attempts)[1..] && SendStalls(old(View()), View())
      ensures old(attempts) != [] && old(attempts)[0].Accepts? && old(attempts)[0].count >= |left| ==>
                r == Sent(|left|) && View() == old(View()).(polls := polls, attempts := old(attempts)[1..])
    {
      hide OnlySending, Slept, Feed, ScriptBytes, ValidReader, IncomingOf, Queue.Valid, Queue.Contents, Near, SocketTrouble;
      hide Drained, MsUntil, KeptBySend, AmqpConnection.Ahead, Stalled, Latest;
      ghost var a := View();
      var next := First(deadline, nextRecv);
      last := next == deadline;
      NearDeadline(deadline, now);
      if Stalled(a, heartbeat, |left|) && deadline == INFINITE {
        StalledMeans(a, heartbeat, |left|);
        assert Silent(next);
      }
      r, n := TrySend(left, next);
      ghost var b := View();
      assert b == a.(now := b.now, ticks := b.ticks, polls := b.polls, sleeps := b.sleeps, attempts := b.attempts);
      SentIsKept(a, b, heartbeat, deadline, next);
    }

    /**
      The sending loop of `amqp_send_frame_inner`: `took` of the bytes were accepted, once and in order. A
      blocked send goes on to receive when the receive deadline has passed; what it parses is queued.
     */
    method SendBytes(bytes: Bytes, deadline: UInt64) returns (st: Status, ghost took: nat)
      requires Valid() && !c.broken && bytes != []
      modifies this, c`reader, c`buffered, c`script, c`broken, c.queue, c.queue.links
      ensures Valid() && (c.broken ==> st != OK)
      ensures forall i :: 0 <= i < |c.queue.links| ==> c.queue.links[i] in old(c.queue.links) || fresh(c.queue.links[i])
      ensures took <= |bytes| && accepted == old(accepted) + bytes[..took] && (st == OK <==> took == |bytes|)
      ensures st == Timeout && old(Reliable(deadline)) ==> deadline != INFINITE && now + NS_PER_MS > deadline
      ensures st != HeartbeatTimeout
      ensures KeptBySend(old(View()), View(), heartbeat, deadline, st)
      ensures Stalled(old(View()), heartbeat, |bytes|) && deadline == INFINITE ==> st == OK && TookChunk(old(View()), View())
    {
      hide Feed, ScriptBytes, ValidReader, IncomingOf, Queue.Valid, Queue.Contents, Near, SocketTrouble;
      hide MsUntil, Latest, TimedConnection.Timely, KeptBySend, Stalled, TookChunk, AmqpConnection.Ahead;
      took := 0;
      var left := bytes;
      ghost var a, near := View(), Reliable(deadline);
      ghost var stalled := Stalled(a, heartbeat, |bytes|) && deadline == INFINITE;
      if stalled {
        StalledMeans(a, heartbeat, |bytes|);
      }
      KeptNothing(a, heartbeat, deadline);
      AcceptMore(accepted, bytes, 0, 0);
      ghost var round: nat := 0;
      while true
        invariant Valid() && !c.broken && now >= old(now)
        invariant forall i :: 0 <= i < |c.queue.links| ==> c.queue.links[i] in old(c.queue.links) || fresh(c.queue.links[i])
        invariant took < |bytes| && left == bytes[took..] && accepted == old(accepted) + bytes[..took]
        invariant KeptBySend(a, View(), heartbeat, deadline, OK)
        invariant stalled ==> took == 0 && round <= 1
        invariant stalled && round == 0 ==> View() == a
        invariant stalled && round == 1 ==> TookChunk(a, View()) && a.attempts != [] && attempts == a.attempts[1..]
        decreases |attempts|
      {
        NearStill(deadline, old(now));
        ghost var b := View();
        if stalled && round == 1 {
          StalledThenFlows(a, b, heartbeat, |bytes|);
        }
        ghost var n;
        var r, rest;
        r, rest, n := SendRound(left, deadline);
        KeptTwice(a, b, View(), heartbeat, deadline, if r == None then OK else r.value);
        KeptMeans(a, View(), heartbeat, deadline, if r == None then OK else r.value);
        if stalled && round == 1 {
          TookStill(a, b, View());
        }
        AcceptMore(old(accepted), bytes, took, n);
        left, took, round := rest, took + n, round + 1;
        if r.Some? {
          return r.value, took;
        }
      }
    }

    lemma NearStill(deadline: UInt64, earlier: nat)
      requires earlier <= now
      ensures heartbeat > 0 || Near(deadline, earlier) ==> Reliable(deadline)
    {
    }

    lemma NearDeadline(deadline: UInt64, earlier: nat)
      requires Timely() && earlier <= now
      ensures heartbeat > 0 || Near(deadline, earlier) ==> Near(First(deadline, nextRecv), now)
      ensures heartbeat <= 0 ==> First(deadline, nextRecv) == deadline
    {
    }

    /** The loop, and the send deadline behind it. */
    method SendEncoded(bytes: Bytes, deadline: UInt64) returns (st: Status, ghost took: nat)
      requires Valid() && !c.broken && bytes != []
      modifies this, c`reader, c`buffered, c`script, c`broken, c.queue, c.queue.links
      ensures Valid() && (c.broken ==> st != OK)
      ensures forall i :: 0 <= i < |c.queue.links| ==> c.queue.links[i] in old(c.queue.links) || fresh(c.queue.links[i])
      ensures took <= |bytes| && accepted == old(accepted) + bytes[..took]
      ensures (st == OK ==> took == |bytes|) && (took == |bytes| ==> st == OK || st == TimerFailure)
      ensures st == Timeout ==> took < |bytes| && (old(Reliable(deadline)) ==> deadline != INFINITE && now + NS_PER_MS > deadline)
      ensures st != HeartbeatTimeout
      ensures KeptBySend(old(View()), View().(nextSend := old(nextSend)), heartbeat, deadline, st)
      ensures heartbeat <= 0 ==> nextSend == old(nextSend)
      ensures Stalled(old(View()), heartbeat, |bytes|) && deadline == INFINITE ==> st == OK && TookChunk(old(View()), View())
    {
      hide Feed, ScriptBytes, ValidReader, IncomingOf, Queue.Valid, Queue.Contents, Near;
      hide KeptBySend, Stalled, TookChunk, AmqpConnection.Ahead, SocketTrouble;
      ghost var a := View();
      st, took := SendBytes(bytes, deadline);
      ghost var b := View();
      if TookChunk(a, b) {
        TookClock(a, b);
      }
      KeptMeans(a, b, heartbeat, deadline, st);
      if st == OK {
        st := PostponeSend();
        Postponed(a, b, View(), heartbeat, deadline, st);
      }
    }

    /**
      `amqp_send_frame_inner`. The socket accepts the whole encoding, once and in order, on success and
      a proper prefix of it when the deadline passes. The receive of a blocked send cannot time out, so
      no heartbeat timeout is ever reported.
     */
    method SendFrame(f: Outgoing, deadline: UInt64) returns (st: Status, ghost took: nat)
      requires Valid() && !c.broken && Sendable(c.cfg, f)
      modifies this, c`reader, c`buffered, c`script, c`broken, c.queue, c.queue.links
      ensures Valid() && (c.broken ==> st != OK)
      ensures forall i :: 0 <= i < |c.queue.links| ==> c.queue.links[i] in old(c.queue.links) || fresh(c.queue.links[i])
      ensures match EncodeFrame(c.cfg, f)
              case Failed(status) => st == status && took == 0 && accepted == old(accepted)
              case Written(bytes) =>
                && took <= |bytes| && accepted == old(accepted) + bytes[..took]
                && (st == OK ==> took == |bytes|)
                && (st == Timeout ==> took < |bytes|)
                && (took == |bytes| ==> st == OK || st == TimerFailure)
                && (st == Timeout && old(Reliable(deadline)) ==> deadline != INFINITE && now + NS_PER_MS > deadline)
                && st != HeartbeatTimeout
                && (Stalled(old(View()), heartbeat, |bytes|) && deadline == INFINITE ==> st == OK && TookChunk(old(View()), View()))
      ensures KeptBySend(old(View()), View().(nextSend := old(nextSend)), heartbeat, deadline, st)
      ensures heartbeat <= 0 ==> nextSend == old(nextSend)
    {
      hide Feed, ScriptBytes, ValidReader, IncomingOf, Queue.Valid, Queue.Contents, EncodeFrame, Sendable, Near;
      hide KeptBySend, Stalled, TookChunk, AmqpConnection.Ahead, SocketTrouble;
      ghost var a := View();
      KeptNothing(a, heartbeat, deadline);
      var encoded := EncodeFrame(c.cfg, f);
      if encoded.Failed? {
        KeptWithStatus(a, a, heartbeat, deadline, encoded.status);
        return encoded.status, 0;
      }
      FrameIsNotEmpty(c.cfg, f);
      st, took := SendEncoded(encoded.bytes, deadline);
    }

    /** Whether a heartbeat is due; the clock is read only if there is a deadline. */
    method SendDeadlineHasPast() returns (st: Status)
      requires Valid()
      modifies this`now, this`ticks
      ensures Valid() && View() == old(View()).(now := now, ticks := ticks) && now >= old(now)
      ensures st == OK || st == Timeout || st == TimerFailure
      ensures st == Timeout ==> heartbeat > 0 && now > nextSend
      ensures st == OK ==> heartbeat <= 0 || now <= nextSend
      ensures old(ticks) == [] && old(now) <= CLOCK_MAX && nextSend < old(now) && heartbeat > 0 ==> st == Timeout && View() == old(View())
    {
      hide Feed, ScriptBytes, ValidReader, IncomingOf, Queue.Valid, Queue.Contents, SocketTrouble, AmqpConnection.Ahead;
      var t: UInt64 := 0;
      if nextSend != INFINITE {
        t := ReadClock();
      }
      st := HasPast(nextSend, t);
    }

    /** The part of `wait_frame_inner` before the receive: a heartbeat is sent when it is due. */
    method SendHeartbeatIfDue() returns (st: Status)
      requires Valid() && !c.broken
      modifies this, c`reader, c`buffered, c`script, c`broken, c.queue, c.queue.links
      ensures Valid() && (c.broken ==> st != OK)
      ensures forall i :: 0 <= i < |c.queue.links| ==> c.queue.links[i] in old(c.queue.links) || fresh(c.queue.links[i])
      ensures st != HeartbeatTimeout && st != Timeout
      // the bytes of a heartbeat, if the send deadline has passed, or nothing
      ensures old(accepted) <= accepted <= old(accepted) + [8, 0, 0, 0, 0, 0, 0, 206]
      ensures now >= old(now) && (st == OK ==> |accepted| == |old(accepted)| + if heartbeat > 0 && now > old(nextSend) then 8 else 0)
      ensures |accepted| > |old(accepted)| ==> heartbeat > 0 && now > old(nextSend)
      ensures KeptBySend(old(View()), View().(nextSend := old(nextSend)), heartbeat, INFINITE, st)
      ensures heartbeat <= 0 || now <= old(nextSend) ==> View() == old(View()).(now := now, ticks := ticks)
      ensures Stalled(old(View()), heartbeat, 8) && old(nextSend) < old(now) ==> st == OK && TookChunk(old(View()), View())
    {
      hide Feed, ScriptBytes, ValidReader, IncomingOf, Queue.Valid, Queue.Contents, EncodeFrame, Near;
      hide KeptBySend, TookChunk, AmqpConnection.Ahead, SocketTrouble, Stalled;
      ghost var a := View();
      KeptNothing(a, heartbeat, INFINITE);
      ghost var stalled := Stalled(a, heartbeat, 8);
      if stalled {
        StalledMeans(a, heartbeat, 8);
      }
      st := SendDeadlineHasPast();
      ghost var b := View();
      KeptClock(a, b, heartbeat);
      if st == Timeout {
        HeartbeatEncodes(c.cfg);
        ghost var took;
        st, took := SendFrame(SendHeartbeat(0), INFINITE);
        KeptMeans(b, View().(nextSend := b.nextSend), heartbeat, INFINITE, st);
        KeptTwice(a, b, View().(nextSend := b.nextSend), heartbeat, INFINITE, st);
      } else {
        KeptWithStatus(a, b, heartbeat, INFINITE, st);
      }
    }

    /** `recv_with_timeout` in `wait_frame_inner`. */
    method Receive(deadline: UInt64) returns (st: Status)
      requires Valid() && !c.broken
      modifies this`now, this`ticks, this`polls, this`sleeps, this`receiveBlocks, this`nextRecv, this`readAt, this`missed, this`gaps
      modifies c`buffered, c`script
      ensures Valid() && st != HeartbeatTimeout && !c.broken
      ensures ReceivedBy(c.cfg, old(View()), View(), deadline, st)
      ensures st == OK ==> |c.script| < |old(c.script)|
      ensures st == Timeout ==> |receiveBlocks| < |old(receiveBlocks)| && c.buffered == old(c.buffered)
      ensures st != OK && st != TimerFailure ==> nextRecv == old(nextRecv) && readAt == old(readAt) && missed == old(missed)
      ensures st == Timeout && Near(deadline, old(now)) ==> deadline != INFINITE && now + NS_PER_MS > deadline
      ensures old(receiveBlocks) == [] && old(ticks) == [] && old(now) <= CLOCK_MAX
              && old(c.script) != [] && old(c.script)[0].Chunk? && old(c.buffered) != [] ==>
                && st == OK && sleeps == old(sleeps) && gaps != old(gaps)
                && c.buffered == old(c.script)[0].bytes && c.script == old(c.script)[1..]
    {
      hide Slept, Feed, ScriptBytes, ValidReader, IncomingOf, Queue.Valid, Queue.Contents, Near, SocketTrouble, Overlooked, Following;
      hide AmqpConnection.Ahead, TimedConnection.Timely;
      st := RecvWithTimeout(deadline, Reading);
    }

    /** One round of `wait_frame_inner` from `beginrecv` on; nothing if it is to go round again. `a` is where the wait began. */
    method ReceiveRound(timeoutDeadline: UInt64, ghost a: View) returns (st: Option<Status>)
      requires Valid() && !c.broken && KeptByWait(c.cfg, a, View(), heartbeat, timeoutDeadline, OK)
      requires a.buffered == [] && (diversions == a.diversions ==> c.buffered == [])
      modifies this, c`reader, c`buffered, c`script, c`broken, c.queue, c.queue.links
      ensures old(accepted) <= accepted && OnlyHeartbeats(accepted[|old(accepted)|..], if st == None then OK else st.value)
      ensures st == Some(OK) || st == Some(Timeout) || st == Some(HeartbeatTimeout) || st == None ==>
                heartbeat > 0 && old(now) > old(nextSend) ==> |accepted| >= |old(accepted)| + 8
      ensures Valid() && (c.broken ==> st.Some? && st != Some(OK))
      ensures forall i :: 0 <= i < |c.queue.links| ==> c.queue.links[i] in old(c.queue.links) || fresh(c.queue.links[i])
      ensures KeptByWait(c.cfg, a, View(), heartbeat, timeoutDeadline, if st == None then OK else st.value)
      ensures st == None ==> |receiveBlocks| < |old(receiveBlocks)| && (diversions == a.diversions ==> c.buffered == [])
      ensures |c.script| <= |old(c.script)| && (st == Some(OK) ==> |c.script| < |old(c.script)|)
      ensures st == Some(HeartbeatTimeout) ==> heartbeat > 0 && (!missed ==> now + NS_PER_MS > readAt + 2 * heartbeat * NS_PER_S)
      ensures st == Some(Timeout) && (heartbeat > 0 || Near(timeoutDeadline, a.now)) ==>
                timeoutDeadline != INFINITE && now + NS_PER_MS > timeoutDeadline
      ensures LosesChunk(a, heartbeat) && old(View()) == a ==> st == Some(OK) && ChunkLost(a, View())
    {
      hide OnlyHeartbeats, Feed, ScriptBytes, ValidReader, IncomingOf, Queue.Valid, Queue.Contents, Near, SocketTrouble;
      hide AmqpConnection.Ahead, KeptBySend, KeptByWait, ReceivedBy, LosesChunk, ChunkLost, TookChunk, Stalled, TimedConnection.Timely;
      ghost var loses := LosesChunk(a, heartbeat) && View() == a;
      if loses {
        LosesMeans(a, heartbeat);
      }
      var sent := BeginReceive(timeoutDeadline, a);
      if sent != OK {
        return Some(sent);
      }
      st := ReceiveUntil(timeoutDeadline, a);
      WholeHeartbeats(accepted[|old(accepted)|..], if st == None then OK else st.value);
    }

    /** The heartbeat, if it is due. */
    method BeginReceive(ghost timeoutDeadline: UInt64, ghost a: View) returns (st: Status)
      requires Valid() && !c.broken && KeptByWait(c.cfg, a, View(), heartbeat, timeoutDeadline, OK)
      requires a.buffered == [] && (diversions == a.diversions ==> c.buffered == [])
      modifies this, c`reader, c`buffered, c`script, c`broken, c.queue, c.queue.links
      ensures old(accepted) <= accepted && OnlyHeartbeats(accepted[|old(accepted)|..], st)
      ensures st == OK && heartbeat > 0 && old(now) > old(nextSend) ==> |accepted| == |old(accepted)| + 8
      ensures Valid() && (c.broken ==> st != OK) && st != HeartbeatTimeout && st != Timeout
      ensures forall i :: 0 <= i < |c.queue.links| ==> c.queue.links[i] in old(c.queue.links) || fresh(c.queue.links[i])
      ensures KeptByWait(c.cfg, a, View(), heartbeat, timeoutDeadline, st)
      ensures |receiveBlocks| <= |old(receiveBlocks)| && |c.script| <= |old(c.script)|
      ensures diversions == a.diversions ==> c.buffered == []
      ensures Stalled(a, heartbeat, 8) && a.nextSend < a.now && old(View()) == a ==> st == OK && TookChunk(a, View())
    {
      hide OnlyHeartbeats, Feed, ScriptBytes, ValidReader, IncomingOf, Queue.Valid, Queue.Contents, Near, SocketTrouble;
      hide AmqpConnection.Ahead, KeptBySend, KeptByWait, TookChunk, Stalled, TimedConnection.Timely;
      ghost var b := View();
      WaitMeans(c.cfg, a, b, heartbeat, timeoutDeadline, OK);
      st := SendHeartbeatIfDue();
      HeartbeatIsOnly(old(accepted), accepted, st);
      ghost var d := View();
      KeptMeans(b, d.(nextSend := b.nextSend), heartbeat, INFINITE, st);
      SendInWait(c.cfg, a, b, d, heartbeat, timeoutDeadline, st);
    }

    /** The receive, up to the earliest of the three deadlines. */
    method ReceiveUntil(timeoutDeadline: UInt64, ghost a: View) returns (st: Option<Status>)
      requires Valid() && !c.broken && KeptByWait(c.cfg, a, View(), heartbeat, timeoutDeadline, OK)
      requires a.buffered == [] && (diversions == a.diversions ==> c.buffered == [])
      modifies this`now, this`ticks, this`polls, this`sleeps, this`receiveBlocks, this`nextRecv, this`readAt, this`missed, this`gaps
      modifies c`buffered, c`script
      ensures Valid() && !c.broken
      ensures KeptByWait(c.cfg, a, View(), heartbeat, timeoutDeadline, if st == None then OK else st.value)
      ensures st == None ==> |receiveBlocks| < |old(receiveBlocks)| && (diversions == a.diversions ==> c.buffered == [])
      ensures |c.script| <= |old(c.script)| && (st == Some(OK) ==> |c.script| < |old(c.script)|)
      ensures st == Some(HeartbeatTimeout) ==> heartbeat > 0 && (!missed ==> now + NS_PER_MS > readAt + 2 * heartbeat * NS_PER_S)
      ensures st == Some(Timeout) && (heartbeat > 0 || Near(timeoutDeadline, a.now)) ==>
                timeoutDeadline != INFINITE && now + NS_PER_MS > timeoutDeadline
      ensures LosesChunk(a, heartbeat) && TookChunk(a, old(View())) ==> st == Some(OK) && ChunkLost(a, View())
    {
      hide Feed, ScriptBytes, ValidReader, IncomingOf, Queue.Valid, Queue.Contents, Near, SocketTrouble;
      hide AmqpConnection.Ahead, KeptByWait, ReceivedBy, LosesChunk, ChunkLost, TookChunk, TimedConnection.Timely;
      ghost var d := View();
      ghost var loses := LosesChunk(a, heartbeat) && TookChunk(a, d);
      if loses {
        LosesMeans(a, heartbeat);
        TookMeans(a, d);
      }
      WaitMeans(c.cfg, a, d, heartbeat, timeoutDeadline, OK);
      var deadline := First(timeoutDeadline, First(nextRecv, nextSend));
      NearEarliest(timeoutDeadline, a.now);
      var received := Receive(deadline);
      ReceiveInWait(c.cfg, a, d, View(), heartbeat, timeoutDeadline, deadline, received);
      ReceivedMeans(c.cfg, d, View(), deadline, received);
      if loses {
        ChunkIsLost(c.cfg, a, d, View(), heartbeat, deadline, received);
      }
      if received != Timeout {
        return Some(received);
      }
      if deadline == nextRecv {
        LateHeartbeat();
        WaitWithStatus(c.cfg, a, View(), heartbeat, timeoutDeadline, HeartbeatTimeout);
        return Some(HeartbeatTimeout);
      } else if deadline == timeoutDeadline {
        return Some(Timeout);
      } else if deadline != nextSend {
        assert false;
      }
      WaitWithStatus(c.cfg, a, View(), heartbeat, timeoutDeadline, OK);
      return None;
    }

    /**
      `wait_frame_inner` from `beginrecv` to a successful receive. One of the three deadlines explains
      every timeout, so the final branch of the source is never taken.
     */
    method ReceiveMore(timeoutDeadline: UInt64) returns (st: Status)
      requires Valid() && !c.broken && c.buffered == []
      modifies this, c`reader, c`buffered, c`script, c`broken, c.queue, c.queue.links
      ensures old(accepted) <= accepted && OnlyHeartbeats(accepted[|old(accepted)|..], st)
      ensures st == OK || st == Timeout || st == HeartbeatTimeout ==>
                heartbeat > 0 && old(now) > old(nextSend) ==> |accepted| >= |old(accepted)| + 8
      ensures Valid() && (c.broken ==> st != OK)
      ensures forall i :: 0 <= i < |c.queue.links| ==> c.queue.links[i] in old(c.queue.links) || fresh(c.queue.links[i])
      ensures st == OK ==> |c.script| < |old(c.script)|
      ensures st == HeartbeatTimeout ==> heartbeat > 0 && (!missed ==> now + NS_PER_MS > readAt + 2 * heartbeat * NS_PER_S)
      ensures st == Timeout && old(Reliable(timeoutDeadline)) ==> timeoutDeadline != INFINITE && now + NS_PER_MS > timeoutDeadline
      ensures KeptByWait(c.cfg, old(View()), View(), heartbeat, timeoutDeadline, st)
      ensures LosesChunk(old(View()), heartbeat) ==> st == OK && ChunkLost(old(View()), View())
    {
      hide OnlyHeartbeats, Feed, ScriptBytes, ValidReader, IncomingOf, Queue.Valid, Queue.Contents, Near, SocketTrouble;
      hide AmqpConnection.Ahead, KeptByWait, LosesChunk, ChunkLost, TimedConnection.Timely;
      ghost var a := View();
      ghost var loses := LosesChunk(a, heartbeat);
      WaitNothing(c.cfg, a, heartbeat, timeoutDeadline);
      NoHeartbeats(accepted, OK);
      while true
        invariant old(accepted) <= accepted && OnlyHeartbeats(accepted[|old(accepted)|..], OK)
        invariant (now == old(now) && nextSend == old(nextSend))
                  || (heartbeat > 0 && old(now) > old(nextSend) ==> |accepted| >= |old(accepted)| + 8)
        invariant Valid() && !c.broken && |c.script| <= |old(c.script)|
        invariant forall i :: 0 <= i < |c.queue.links| ==> c.queue.links[i] in old(c.queue.links) || fresh(c.queue.links[i])
        invariant KeptByWait(c.cfg, a, View(), heartbeat, timeoutDeadline, OK)
        invariant diversions == a.diversions ==> c.buffered == []
        invariant loses ==> View() == a
        decreases |receiveBlocks|
      {
        ghost var sent := accepted;
        var round := ReceiveRound(timeoutDeadline, a);
        MoreHeartbeats(old(accepted), sent, accepted, if round == None then OK else round.value);
        if round.Some? {
          return round.value;
        }
      }
    }

    lemma LateHeartbeat()
      requires Timely()
      ensures nextRecv != INFINITE && now + NS_PER_MS > nextRecv ==>
                heartbeat > 0 && (!missed ==> now + NS_PER_MS > readAt + 2 * heartbeat * NS_PER_S)
      ensures nextRecv == INFINITE || heartbeat > 0
    {
    }

    lemma NearEarliest(timeoutDeadline: UInt64, earlier: nat)
      requires Timely() && earlier <= now
      ensures var d := First(timeoutDeadline, First(nextRecv, nextSend));
              heartbeat > 0 || Near(timeoutDeadline, earlier) ==> Near(d, now)
      ensures Near(INFINITE, now)
    {
    }

    /**
      `wait_frame_inner` with its deadlines, the heartbeats it sends and the polls it makes. In runs where
      sending a heartbeat did not go on to receive, it keeps the contract of `Connection.WaitFrameInner`.
     */
    method WaitFrame(timeoutDeadline: UInt64) returns (w: Waited, ghost taken: seq<Frame>)
      requires Valid() && !c.broken
      modifies this, c`reader, c`buffered, c`script, c`broken, c.queue, c.queue.links
      ensures old(accepted) <= accepted && OnlyHeartbeats(accepted[|old(accepted)|..], if w.Refused? then w.status else OK)
      ensures old(c.buffered) == [] && heartbeat > 0 && old(now) > old(nextSend) ==>
                w.Delivered? || w == Refused(Timeout) || w == Refused(HeartbeatTimeout) ==> |accepted| >= |old(accepted)| + 8
      ensures Valid() && (c.broken ==> w.Refused?)
      ensures forall i :: 0 <= i < |c.queue.links| ==> c.queue.links[i] in old(c.queue.links) || fresh(c.queue.links[i])
      ensures w.Delivered? ==> !w.frame.Heartbeat?
      ensures w.Delivered? ==> |c.script| < |old(c.script)| || (c.script == old(c.script) && |c.buffered| < |old(c.buffered)|)
      ensures w == Refused(HeartbeatTimeout) ==> heartbeat > 0 && (!missed ==> now + NS_PER_MS > readAt + 2 * heartbeat * NS_PER_S)
      ensures w == Refused(Timeout) && old(Reliable(timeoutDeadline)) ==> timeoutDeadline != INFINITE && now + NS_PER_MS > timeoutDeadline
      ensures KeptByFrame(c.cfg, old(View()), View(), heartbeat, timeoutDeadline, w, taken)
      ensures LosesChunk(old(View()), heartbeat) ==> LostInWait(old(View()), View())
    {
      hide OnlyHeartbeats, Feed, ScriptBytes, ValidReader, IncomingOf, Queue.Valid, Queue.Contents, KeptByFrame, Near, SocketTrouble;
      hide AmqpConnection.Ahead, LosesChunk, LostInWait, TimedConnection.Timely;
      ghost var a := View();
      ghost var loses := LosesChunk(a, heartbeat);
      if loses {
        LosesMeans(a, heartbeat);
      }
      FrameNothing(c.cfg, a, heartbeat, timeoutDeadline);
      taken := [];
      ghost var first := true;
      NoHeartbeats(accepted, OK);
      while true
        invariant old(accepted) <= accepted && OnlyHeartbeats(accepted[|old(accepted)|..], OK)
        invariant (first && c.script == old(c.script) && c.buffered == old(c.buffered)) || |c.script| < |old(c.script)|
        invariant first ==> now == old(now) && nextSend == old(nextSend) && c.buffered == old(c.buffered)
        invariant !first && old(c.buffered) == [] && heartbeat > 0 && old(now) > old(nextSend) ==> |accepted| >= |old(accepted)| + 8
        invariant Valid() && !c.broken
        invariant forall i :: 0 <= i < |c.queue.links| ==> c.queue.links[i] in old(c.queue.links) || fresh(c.queue.links[i])
        invariant KeptByFrame(c.cfg, a, View(), heartbeat, timeoutDeadline, Refused(OK), taken)
        invariant loses && first ==> View() == a
        invariant loses && !first ==> LostInWait(a, View())
        decreases |c.script|
      {
        ghost var b, sent := View(), accepted;
        var round;
        round, taken := FrameRound(timeoutDeadline, a, taken);
        MoreHeartbeats(old(accepted), sent, accepted, if round.Some? && round.value.Refused? then round.value.status else OK);
        if loses && !first {
          LostStill(a, b, View());
        }
        first := false;
        if round.Some? {
          return round.value, taken;
        }
      }
    }

    /** One round of its loop: what is in the buffer is parsed, and if that yields no frame, more is received. */
    method FrameRound(timeoutDeadline: UInt64, ghost a: View, ghost before: seq<Frame>) returns (w: Option<Waited>, ghost taken: seq<Frame>)
      requires Valid() && !c.broken && KeptByFrame(c.cfg, a, View(), heartbeat, timeoutDeadline, Refused(OK), before)
      modifies this, c`reader, c`buffered, c`script, c`broken, c.queue, c.queue.links
      ensures old(accepted) <= accepted && OnlyHeartbeats(accepted[|old(accepted)|..], if w.Some? && w.value.Refused? then w.value.status else OK)
      ensures old(c.buffered) == [] && heartbeat > 0 && old(now) > old(nextSend) ==>
                w == None || w.value == Refused(Timeout) || w.value == Refused(HeartbeatTimeout) ==> |accepted| >= |old(accepted)| + 8
      ensures old(c.buffered) == [] && w.Some? ==> w.value.Refused?
      ensures Valid() && (c.broken ==> w.Some? && w.value.Refused?)
      ensures forall i :: 0 <= i < |c.queue.links| ==> c.queue.links[i] in old(c.queue.links) || fresh(c.queue.links[i])
      ensures w.Some? && w.value.Delivered? ==>
                !w.value.frame.Heartbeat? && c.script == old(c.script) && |c.buffered| < |old(c.buffered)|
      ensures w == None ==> |c.script| < |old(c.script)|
      ensures w == Some(Refused(HeartbeatTimeout)) ==>
                heartbeat > 0 && (!missed ==> now + NS_PER_MS > readAt + 2 * heartbeat * NS_PER_S)
      ensures w == Some(Refused(Timeout)) && (heartbeat > 0 || Near(timeoutDeadline, a.now)) ==>
                timeoutDeadline != INFINITE && now + NS_PER_MS > timeoutDeadline
      ensures KeptByFrame(c.cfg, a, View(), heartbeat, timeoutDeadline, if w == None then Refused(OK) else w.value, taken)
      ensures old(gaps) <= gaps && old(sleeps) <= sleeps && |gaps| + |c.script| <= |old(gaps)| + |old(c.script)|
      ensures LosesChunk(a, heartbeat) && old(View()) == a ==> LostInWait(a, View())
    {
      hide OnlyHeartbeats, Feed, ScriptBytes, ValidReader, IncomingOf, Queue.Valid, Queue.Contents, KeptByWait, KeptByFrame, Near, SocketTrouble;
      hide AllHeartbeats, IsSuffix, Taken, Idled, AmqpConnection.Ahead, LosesChunk, ChunkLost, LostInWait, TimedConnection.Timely;
      ghost var b := View();
      ghost var loses := LosesChunk(a, heartbeat) && b == a;
      FrameMeans(c.cfg, a, b, heartbeat, timeoutDeadline, before);
      if loses {
        LosesMeans(a, heartbeat);
        StalledMeans(a, heartbeat, 8);
      }
      var parsed := c.ParseBuffered();
      ghost var d := View();
      taken := ParsedInFrame(c.cfg, a, b, d, heartbeat, timeoutDeadline, before, parsed);
      NoHeartbeats(accepted, if parsed.Some? && parsed.value.Refused? then parsed.value.status else OK);
      if parsed.Some? {
        return parsed, taken;
      }
      NearStays(timeoutDeadline, a.now, now);
      var st := ReceiveMore(timeoutDeadline);
      WaitMeans(c.cfg, d, View(), heartbeat, timeoutDeadline, st);
      ReceivedInFrame(c.cfg, a, d, View(), heartbeat, timeoutDeadline, taken, st);
      taken := taken + View().queue[|d.queue|..];
      if loses {
        LostFirst(a, View(), heartbeat);
      }
      return if st == OK then None else Some(Refused(st)), taken;
    }
  }
}
