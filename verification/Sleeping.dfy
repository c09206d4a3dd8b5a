/**
  Waiting in `poll` (amqp_socket.c): the clock, the socket and `poll` are oracles, each with a script of what
  it will do, of any length and content; and when the calls made so far are to end.
 */
module Sleeping {
  import opened Wire
  import opened Deadlines

  // ----- The oracles -----

  /** 292 years; a clock past this is taken to be unreadable. */
  const CLOCK_MAX := 0x7FFF_FFFF_FFFF_FFFF

  /** What socket calls report besides "would block"; only `poll` times out. */
  predicate IsSocketFailure(st: Status)
  {
    st == SocketError || st == ConnectionClosed
  }

  type SocketFailure = st: Status | IsSocketFailure(st) witness SocketError

  /** One clock reading. */
  datatype Tick = Elapsed(ns: nat) | Unreadable

  /** One call of `poll`; it never times out when told to wait for ever. */
  datatype Poll = Ready(after: nat) | Quiet(after: nat) | Interrupted(after: nat) | PollFails

  /** One attempt to send. */
  datatype Attempt = Accepts(count: nat) | WouldBlock | Breaks(status: SocketFailure)

  /** What a call of `poll` is for: `Draining` is the receive of `amqp_try_recv`. */
  datatype Purpose = Reading | Sending | Draining

  /** A call of `poll`: when, for how many milliseconds, and the heartbeat deadlines at that time. */
  datatype Sleep = Sleep(purpose: Purpose, start: nat, ms: int, recvDue: UInt64, sendDue: UInt64)

  function CodeStatus(code: int): (st: Status)
    requires code < -1
    ensures st != OK && st != HeartbeatTimeout
  {
    if code == STATUS_TIMEOUT then Timeout else if code == STATUS_TIMER_FAILURE then TimerFailure else Undefined
  }

  function Latest(a: nat, b: nat): nat
  {
    if a < b then b else a
  }

  // ----- One call of poll -----

  /** The sleep ends by `t`; it is endless only if `t` is "never". */
  predicate EndsBy(s: Sleep, t: UInt64)
  {
    && s.ms >= -1 && (s.ms == -1 ==> t == INFINITE)
    && (s.ms > 0 ==> s.start + s.ms * NS_PER_MS <= t)
  }

  lemma EndsByLater(s: Sleep, t: UInt64, later: UInt64)
    requires EndsBy(s, t) && t <= later
    ensures EndsBy(s, later)
  {
  }

  lemma MsUntilValues(deadline: UInt64, t: UInt64)
    ensures deadline == INFINITE ==> MsUntil(deadline, t) == -1
    ensures deadline == 0 || (deadline <= t && deadline != INFINITE) ==> MsUntil(deadline, t) == 0
    ensures t == 0 < deadline < INFINITE ==> MsUntil(deadline, t) == STATUS_TIMER_FAILURE
  {
  }

  /** What `poll` is told: if the wait runs to its end, the deadline is less than a millisecond away. */
  lemma SleepUntil(deadline: UInt64, t: UInt64, s: Sleep)
    requires deadline == INFINITE || deadline == 0 || t == 0 || t == s.start
    requires s.ms == MsUntil(deadline, t) && Near(deadline, s.start)
    ensures s.ms >= -1 ==> EndsBy(s, deadline)
    ensures s.ms >= 0 ==> deadline != INFINITE && s.start + s.ms * NS_PER_MS + NS_PER_MS > deadline
    ensures s.ms < -1 ==> CodeStatus(s.ms) != Timeout
    ensures deadline == INFINITE ==> s.ms == -1
    ensures deadline == 0 || (0 < t == s.start && deadline < INFINITE) ==>
              s.ms >= 0 && s.start + s.ms * NS_PER_MS <= Latest(s.start, deadline)
  {
    hide MsUntil;
    MsUntilValues(deadline, t);
    if 0 < t < deadline && deadline != INFINITE {
      MsUntilIsExact(deadline, t);
    }
  }

  lemma NeverIsNear(now: nat)
    ensures Near(INFINITE, now)
  {
  }

  lemma NearStays(t: UInt64, earlier: nat, now: nat)
    requires earlier <= now
    ensures Near(t, earlier) ==> Near(t, now)
  {
  }

  lemma Prefixes(a: seq<Sleep>, b: seq<Sleep>, c: seq<Sleep>)
    requires |a| <= |b| <= |c| && b[..|a|] == a && c[..|b|] == b
    ensures c[..|a|] == a && forall i :: 0 <= i < |b| ==> c[i] == b[i]
  {
    assert c[..|b|][..|a|] == c[..|a|];
    forall i | 0 <= i < |b|
      ensures c[i] == b[i]
    {
      assert c[..|b|][i] == c[i];
    }
  }

  // ----- Calls towards one deadline -----

  /** `after` is `before` and sleeps that were all meant to end by `deadline`. */
  predicate Slept(before: seq<Sleep>, after: seq<Sleep>, deadline: UInt64, purpose: Purpose, recvDue: UInt64, sendDue: UInt64, near: bool)
  {
    && |after| >= |before| && after[..|before|] == before
    && forall i :: |before| <= i < |after| ==>
         && after[i].purpose == purpose && after[i].recvDue == recvDue && after[i].sendDue == sendDue
         && (near ==> EndsBy(after[i], deadline)) && (deadline == INFINITE ==> after[i].ms == -1)
  }

  lemma SleepNothing(sleeps: seq<Sleep>)
    ensures forall d, r, recv, send, near :: Slept(sleeps, sleeps, d, r, recv, send, near)
  {
  }

  lemma SleepMore(
      before: seq<Sleep>, after: seq<Sleep>, deadline: UInt64, purpose: Purpose, recvDue: UInt64, sendDue: UInt64, near: bool, s: Sleep)
    requires Slept(before, after, deadline, purpose, recvDue, sendDue, near)
    requires s.purpose == purpose && s.recvDue == recvDue && s.sendDue == sendDue && (near ==> EndsBy(s, deadline))
    requires deadline == INFINITE ==> s.ms == -1
    ensures Slept(before, after + [s], deadline, purpose, recvDue, sendDue, near)
  {
  }

  lemma SleepLonger(
      a: seq<Sleep>, b: seq<Sleep>, c: seq<Sleep>, deadline: UInt64, purpose: Purpose, recvDue: UInt64, sendDue: UInt64, near: bool)
    requires Slept(a, b, deadline, purpose, recvDue, sendDue, near)
    ensures forall near' | near ==> near' ::
              Slept(b, c, deadline, purpose, recvDue, sendDue, near') ==> Slept(a, c, deadline, purpose, recvDue, sendDue, near)
  {
    forall near' | (near ==> near') && Slept(b, c, deadline, purpose, recvDue, sendDue, near')
      ensures Slept(a, c, deadline, purpose, recvDue, sendDue, near)
    {
      Prefixes(a, b, c);
    }
  }

  // ----- Calls made while sending -----

  /** A poll made while sending ends by `sendBy` and by the receive deadline; the receive of `amqp_try_recv` waits for ever. */
  predicate EndsInSend(s: Sleep, sendBy: UInt64)
  {
    match s.purpose
    case Sending => EndsBy(s, sendBy) && EndsBy(s, s.recvDue)
    case Draining => s.ms == -1
    case Reading => false
  }

  predicate OnlySending(before: seq<Sleep>, after: seq<Sleep>, sendBy: UInt64, near: bool)
  {
    && |after| >= |before| && after[..|before|] == before
    && forall i :: |before| <= i < |after| ==> after[i].purpose != Reading && (near ==> EndsInSend(after[i], sendBy))
  }

  lemma SendingNothing(s: seq<Sleep>, sendBy: UInt64, near: bool)
    ensures OnlySending(s, s, sendBy, near)
  {
  }

  lemma SendingMore(
      a: seq<Sleep>, b: seq<Sleep>, c: seq<Sleep>, deadline: UInt64, recvDue: UInt64, sendDue: UInt64, near: bool, near': bool)
    requires OnlySending(a, b, deadline, near) && (near ==> near') && deadline <= recvDue
    requires Slept(b, c, deadline, Sending, recvDue, sendDue, near')
    ensures OnlySending(a, c, deadline, near)
  {
    Prefixes(a, b, c);
    forall i | |b| <= i < |c| && near
      ensures EndsInSend(c[i], deadline)
    {
      EndsByLater(c[i], deadline, recvDue);
    }
  }

  lemma SendingStill(a: seq<Sleep>, b: seq<Sleep>, c: seq<Sleep>, next: UInt64, deadline: UInt64, near: bool, near': bool)
    requires OnlySending(a, b, deadline, near) && OnlySending(b, c, next, near') && (near ==> near') && next <= deadline
    ensures OnlySending(a, c, deadline, near)
  {
    Prefixes(a, b, c);
    forall i | |b| <= i < |c| && near
      ensures EndsInSend(c[i], deadline)
    {
      if c[i].purpose == Sending {
        EndsByLater(c[i], next, deadline);
      }
    }
  }

  lemma DrainingStill(
      a: seq<Sleep>, b: seq<Sleep>, c: seq<Sleep>, deadline: UInt64, near: bool, recvDue: UInt64, sendDue: UInt64, near': bool)
    requires OnlySending(a, b, deadline, near) && Slept(b, c, INFINITE, Draining, recvDue, sendDue, near')
    ensures OnlySending(a, c, deadline, near)
  {
    Prefixes(a, b, c);
  }

  // ----- Calls made while waiting -----

  /** A poll made while waiting for bytes to read ends by all three deadlines of that moment; others as they do in a send. */
  predicate EndsInWait(s: Sleep, timeoutDeadline: UInt64)
  {
    match s.purpose
    case Reading => EndsBy(s, timeoutDeadline) && EndsBy(s, s.recvDue) && EndsBy(s, s.sendDue)
    case _ => EndsInSend(s, INFINITE)
  }

  predicate InTime(before: seq<Sleep>, after: seq<Sleep>, timeoutDeadline: UInt64)
  {
    before <= after && forall i :: |before| <= i < |after| ==> EndsInWait(after[i], timeoutDeadline)
  }

  predicate OnlyReading(before: seq<Sleep>, after: seq<Sleep>)
  {
    before <= after && forall i :: |before| <= i < |after| ==> after[i].purpose == Reading
  }

  lemma SendingInTime(a: seq<Sleep>, b: seq<Sleep>, c: seq<Sleep>, timeoutDeadline: UInt64, near: bool)
    requires OnlySending(b, c, INFINITE, true) && a <= b
    ensures a <= c && (near && InTime(a, b, timeoutDeadline) ==> InTime(a, c, timeoutDeadline))
  {
    Prefixes(a, b, c);
  }

  lemma ReadingInTime(
      a: seq<Sleep>, b: seq<Sleep>, c: seq<Sleep>, deadline: UInt64, timeoutDeadline: UInt64, recvDue: UInt64, sendDue: UInt64, near: bool)
    requires deadline <= timeoutDeadline && deadline <= recvDue && deadline <= sendDue
    requires Slept(b, c, deadline, Reading, recvDue, sendDue, near) && a <= b
    ensures a <= c && (near && InTime(a, b, timeoutDeadline) ==> InTime(a, c, timeoutDeadline))
    ensures OnlyReading(a, b) ==> OnlyReading(a, c)
  {
    Prefixes(a, b, c);
    forall i | |b| <= i < |c| && near
      ensures EndsInWait(c[i], timeoutDeadline)
    {
      EndsByLater(c[i], deadline, timeoutDeadline);
      EndsByLater(c[i], deadline, recvDue);
      EndsByLater(c[i], deadline, sendDue);
    }
  }

  lemma InTimeTwice(a: seq<Sleep>, b: seq<Sleep>, c: seq<Sleep>, timeoutDeadline: UInt64)
    ensures InTime(a, b, timeoutDeadline) && InTime(b, c, timeoutDeadline) ==> InTime(a, c, timeoutDeadline)
    ensures OnlyReading(a, b) && OnlyReading(b, c) ==> OnlyReading(a, c)
  {
  }
}
