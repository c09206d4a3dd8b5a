/**
  Where every frame of the wire goes, over whole runs of the operations of module `Connection`: the
  frames are numbered by their position on the wire, and a ledger records which were delivered, which
  are queued, which were answers to RPCs, and which were dropped.
 */
module Order {
  import opened Wire
  import opened Framing
  import opened FrameQueue
  import opened Connection
  import opened Rpc

  datatype Ledger = Ledger(
    next: nat,                 // frames parsed so far
    delivered: seq<nat>,       // handed to the caller, in that order
    queue: seq<nat>,
    replies: seq<nat>,         // returned as RPC replies
    heartbeats: seq<nat>,      // dropped by `wait_frame_inner`
    cut: seq<nat>)             // dropped ahead of a match in the queue

  const START := Ledger(0, [], [], [], [], [])

  datatype Act =
    | TakeFirst                            // the head of the queue is delivered
    | TakeOn(channel: UInt16)              // the first queued frame of the channel is delivered
    | Read(count: nat, delivers: bool)     // frames are read, the last of them delivered or all queued
    | Answer(count: nat)                   // frames are read, the last of them is an RPC reply
    | Drain(count: nat)                    // `amqp_try_recv`: frames are read and queued, heartbeats included
    | PutBack                              // the frame delivered last goes back to the front of the queue

  function Range(a: nat, b: nat): seq<nat>
    decreases b
  {
    if b <= a then [] else Range(a, b - 1) + [b - 1]
  }

  function Channel(wire: seq<Frame>, i: nat): UInt16
  {
    if i < |wire| then ChannelOfFrame(wire[i]) else 0
  }

  predicate IsHeartbeat(wire: seq<Frame>, i: nat)
  {
    i < |wire| && wire[i].Heartbeat?
  }

  function RealIn(wire: seq<Frame>, a: nat, b: nat): seq<nat>
    decreases b
  {
    if b <= a then [] else RealIn(wire, a, b - 1) + (if IsHeartbeat(wire, b - 1) then [] else [b - 1])
  }

  function HeartbeatsIn(wire: seq<Frame>, a: nat, b: nat): seq<nat>
    decreases b
  {
    if b <= a then [] else HeartbeatsIn(wire, a, b - 1) + (if IsHeartbeat(wire, b - 1) then [b - 1] else [])
  }

  function FramesAt(wire: seq<Frame>, s: seq<nat>): (r: seq<Frame>)
    ensures |r| == |s|
  {
    seq(|s|, i requires 0 <= i < |s| => if s[i] < |wire| then wire[s[i]] else Heartbeat(0))
  }

  /** No frame in `s` belongs to channel `ch`. */
  predicate NoneOn(wire: seq<Frame>, s: seq<nat>, ch: UInt16)
  {
    forall i :: 0 <= i < |s| ==> Channel(wire, s[i]) != ch
  }

  /** When the operations take these steps. */
  predicate Enabled(wire: seq<Frame>, l: Ledger, act: Act)
  {
    match act
    case TakeFirst => l.queue != []
    case TakeOn(ch) => FirstOn(FramesAt(wire, l.queue), ch) < |l.queue|
    case Read(n, delivers) =>
      && l.next + n <= |wire|
      && (delivers ==>
            && n > 0
            && var last := l.next + n - 1;
               !IsHeartbeat(wire, last)
               && NoneOn(wire, l.queue + RealIn(wire, l.next, last), Channel(wire, last)))
    case Answer(n) => l.next + n <= |wire| && n > 0 && !IsHeartbeat(wire, l.next + n - 1)
    case Drain(n) => l.next + n <= |wire|
    case PutBack => l.delivered != []
  }

  function Step(wire: seq<Frame>, l: Ledger, act: Act): Ledger
    requires Enabled(wire, l, act)
  {
    match act
    case TakeFirst => l.(delivered := l.delivered + [l.queue[0]], queue := l.queue[1..])
    case TakeOn(ch) =>
      var k := FirstOn(FramesAt(wire, l.queue), ch);
      l.(delivered := l.delivered + [l.queue[k]], queue := l.queue[k + 1..], cut := l.cut + l.queue[..k])
    case Read(n, delivers) =>
      var end := l.next + n;
      var last := if delivers then end - 1 else end;
      l.(next := end,
         delivered := if delivers then l.delivered + [last] else l.delivered,
         queue := l.queue + RealIn(wire, l.next, last),
         heartbeats := l.heartbeats + HeartbeatsIn(wire, l.next, last))
    case Answer(n) =>
      var last := l.next + n - 1;
      l.(next := last + 1,
         replies := l.replies + [last],
         queue := l.queue + RealIn(wire, l.next, last),
         heartbeats := l.heartbeats + HeartbeatsIn(wire, l.next, last))
    case Drain(n) => l.(next := l.next + n, queue := l.queue + Range(l.next, l.next + n))
    case PutBack =>
      var n := |l.delivered| - 1;
      l.(delivered := l.delivered[..n], queue := [l.delivered[n]] + l.queue)
  }

  ghost predicate IsRun(wire: seq<Frame>, ledgers: seq<Ledger>, acts: seq<Act>)
  {
    && |ledgers| == |acts| + 1 && ledgers[0] == START
    && forall i :: 0 <= i < |acts| ==> Enabled(wire, ledgers[i], acts[i]) && ledgers[i + 1] == Step(wire, ledgers[i], acts[i])
  }

  // ----- What every step keeps -----

  /** Frames of the same channel are in wire order. */
  predicate InOrder(wire: seq<Frame>, s: seq<nat>)
  {
    forall i, j :: 0 <= i < j < |s| && Channel(wire, s[i]) == Channel(wire, s[j]) ==> s[i] < s[j]
  }

  predicate Below(s: seq<nat>, n: nat)
  {
    forall i :: 0 <= i < |s| ==> s[i] < n
  }

  /** Everything parsed, in one list. */
  function All(l: Ledger): multiset<nat>
  {
    multiset(l.delivered) + multiset(l.queue) + multiset(l.replies) + multiset(l.heartbeats) + multiset(l.cut)
  }

  ghost predicate Good(wire: seq<Frame>, l: Ledger)
  {
    && l.next <= |wire|
    && InOrder(wire, l.delivered + l.queue)
    && Below(l.delivered + l.queue, l.next)
    && All(l) == multiset(Range(0, l.next))
    && (forall i :: 0 <= i < |l.heartbeats| ==> IsHeartbeat(wire, l.heartbeats[i]))
  }

  lemma {:induction false} RangeSplits(wire: seq<Frame>, a: nat, b: nat)
    ensures Splits(RealIn(wire, a, b), HeartbeatsIn(wire, a, b), Range(a, b))
    decreases b
  {
    hide Splits, IsHeartbeat, RealIn, HeartbeatsIn, Range;
    if a < b {
      RangeSplits(wire, a, b - 1);
      LastOfRange(wire, a, b);
      SplitOne(RealIn(wire, a, b - 1), HeartbeatsIn(wire, a, b - 1), Range(a, b - 1), b - 1);
    } else {
      EmptyRange(wire, a, b);
      SplitNone();
    }
  }

  predicate Splits(p: seq<nat>, q: seq<nat>, all: seq<nat>)
  {
    multiset(p) + multiset(q) == multiset(all)
  }

  lemma SplitNone()
    ensures Splits([], [], [])
  {
  }

  lemma EmptyRange(wire: seq<Frame>, a: nat, b: nat)
    requires b <= a
    ensures RealIn(wire, a, b) == HeartbeatsIn(wire, a, b) == Range(a, b) == []
  {
  }

  lemma LastOfRange(wire: seq<Frame>, a: nat, b: nat)
    requires a < b
    ensures Range(a, b) == Range(a, b - 1) + [b - 1]
    ensures IsHeartbeat(wire, b - 1) ==>
              RealIn(wire, a, b) == RealIn(wire, a, b - 1) && HeartbeatsIn(wire, a, b) == HeartbeatsIn(wire, a, b - 1) + [b - 1]
    ensures !IsHeartbeat(wire, b - 1) ==>
              RealIn(wire, a, b) == RealIn(wire, a, b - 1) + [b - 1] && HeartbeatsIn(wire, a, b) == HeartbeatsIn(wire, a, b - 1)
  {
    assert RealIn(wire, a, b - 1) + [] == RealIn(wire, a, b - 1);
    assert HeartbeatsIn(wire, a, b - 1) + [] == HeartbeatsIn(wire, a, b - 1);
  }

  lemma SplitOne(p: seq<nat>, q: seq<nat>, all: seq<nat>, x: nat)
    requires Splits(p, q, all)
    ensures Splits(p + [x], q, all + [x]) && Splits(p, q + [x], all + [x])
  {
  }

  lemma {:induction false} HeartbeatsAreHeartbeats(wire: seq<Frame>, a: nat, b: nat)
    ensures forall i :: 0 <= i < |HeartbeatsIn(wire, a, b)| ==> IsHeartbeat(wire, HeartbeatsIn(wire, a, b)[i])
    decreases b
  {
    if a < b {
      HeartbeatsAreHeartbeats(wire, a, b - 1);
    }
  }

  lemma {:induction false} RangesIncrease(wire: seq<Frame>, a: nat, b: nat)
    ensures Increasing(RealIn(wire, a, b), a, b) && Increasing(Range(a, b), a, b)
    decreases b
  {
    if a < b {
      RangesIncrease(wire, a, b - 1);
    }
  }

  lemma RangeProperties(wire: seq<Frame>, a: nat, b: nat)
    ensures multiset(RealIn(wire, a, b)) + multiset(HeartbeatsIn(wire, a, b)) == multiset(Range(a, b))
    ensures forall i :: 0 <= i < |HeartbeatsIn(wire, a, b)| ==> IsHeartbeat(wire, HeartbeatsIn(wire, a, b)[i])
    ensures Increasing(RealIn(wire, a, b), a, b) && Increasing(Range(a, b), a, b)
  {
    RangeSplits(wire, a, b);
    HeartbeatsAreHeartbeats(wire, a, b);
    RangesIncrease(wire, a, b);
  }

  lemma {:induction false} RangeConcat(a: nat, b: nat, c: nat)
    requires a <= b <= c
    ensures Range(a, c) == Range(a, b) + Range(b, c)
    decreases c
  {
    if b < c {
      RangeConcat(a, b, c - 1);
    }
  }

  /** Strictly increasing within `[a, b)`. */
  predicate Increasing(s: seq<nat>, a: nat, b: nat)
  {
    && (forall i :: 0 <= i < |s| ==> a <= s[i] < b)
    && (forall i, j :: 0 <= i < j < |s| ==> s[i] < s[j])
  }

  lemma AppendLater(wire: seq<Frame>, s: seq<nat>, n: nat, t: seq<nat>, m: nat)
    requires InOrder(wire, s) && Below(s, n) && Increasing(t, n, m) && n <= m
    ensures InOrder(wire, s + t) && Below(s + t, m)
  {
  }

  /** A frame that is later than all of `d` may go in front of frames of other channels. */
  lemma InsertAhead(wire: seq<Frame>, d: seq<nat>, x: seq<nat>, m: nat)
    requires InOrder(wire, d + x) && Below(d + x, m) && NoneOn(wire, x, Channel(wire, m))
    ensures InOrder(wire, (d + [m]) + x) && Below((d + [m]) + x, m + 1)
  {
    var s, t := d + x, (d + [m]) + x;
    forall i, j | 0 <= i < j < |t| && Channel(wire, t[i]) == Channel(wire, t[j])
      ensures t[i] < t[j]
    {
      var i', j' := if i > |d| then i - 1 else i, if j > |d| then j - 1 else j;
      if i != |d| && j != |d| {
        assert t[i] == s[i'] && t[j] == s[j'];
      } else if i == |d| {
        assert false;
      } else {
        assert t[i] == s[i];
      }
    }
    forall i | 0 <= i < |t|
      ensures t[i] < m + 1
    {
      if i < |d| {
        assert t[i] == s[i];
      } else if i > |d| {
        assert t[i] == s[i - 1];
      }
    }
  }

  lemma RemoveMiddle(wire: seq<Frame>, a: seq<nat>, b: seq<nat>, c: seq<nat>, n: nat)
    requires InOrder(wire, a + (b + c)) && Below(a + (b + c), n)
    ensures InOrder(wire, a + c) && Below(a + c, n)
  {
    var s, t := a + (b + c), a + c;
    forall i | 0 <= i < |t|
      ensures t[i] == s[if i < |a| then i else i + |b|]
    {
    }
  }

  /** Reading up to `last` accounts for the frames read. */
  lemma AccountFor(wire: seq<Frame>, l: Ledger, last: nat)
    requires All(l) == multiset(Range(0, l.next)) && l.next <= last
    ensures var l' := l.(queue := l.queue + RealIn(wire, l.next, last), heartbeats := l.heartbeats + HeartbeatsIn(wire, l.next, last));
            All(l') == multiset(Range(0, last))
  {
    hide RealIn, HeartbeatsIn, Range, IsHeartbeat;
    RangeSplits(wire, l.next, last);
    RangeConcat(0, l.next, last);
  }

  /** Everything up to `last` is read, and queued or dropped. */
  lemma KeepReading(wire: seq<Frame>, l: Ledger, last: nat)
    requires Good(wire, l) && l.next <= last <= |wire|
    ensures Good(wire, l.(next := last,
                          queue := l.queue + RealIn(wire, l.next, last),
                          heartbeats := l.heartbeats + HeartbeatsIn(wire, l.next, last)))
  {
    hide RealIn, HeartbeatsIn, Range, InOrder, Below, IsHeartbeat;
    var others := RealIn(wire, l.next, last);
    HeartbeatsAreHeartbeats(wire, l.next, last);
    RangesIncrease(wire, l.next, last);
    AccountFor(wire, l, last);
    AppendLater(wire, l.delivered + l.queue, l.next, others, last);
    assert (l.delivered + l.queue) + others == l.delivered + (l.queue + others);
  }

  /** The next frame is delivered, past queued frames of other channels. */
  lemma KeepDelivering(wire: seq<Frame>, l: Ledger)
    requires Good(wire, l) && l.next < |wire| && NoneOn(wire, l.queue, Channel(wire, l.next))
    ensures Good(wire, l.(next := l.next + 1, delivered := l.delivered + [l.next]))
  {
    hide Range, InOrder, Below, NoneOn, IsHeartbeat;
    InsertAhead(wire, l.delivered, l.queue, l.next);
    RangeLast(0, l.next);
  }

  lemma KeepRead(wire: seq<Frame>, l: Ledger, n: nat, delivers: bool)
    requires Good(wire, l) && Enabled(wire, l, Read(n, delivers))
    ensures Good(wire, Step(wire, l, Read(n, delivers)))
  {
    hide Good, RealIn, HeartbeatsIn, NoneOn, IsHeartbeat;
    var last := if delivers then l.next + n - 1 else l.next + n;
    KeepReading(wire, l, last);
    if delivers {
      KeepDelivering(wire, l.(next := last,
                              queue := l.queue + RealIn(wire, l.next, last),
                              heartbeats := l.heartbeats + HeartbeatsIn(wire, l.next, last)));
    }
  }

  lemma RangeLast(a: nat, b: nat)
    requires a <= b
    ensures Range(a, b + 1) == Range(a, b) + [b]
  {
  }

  lemma KeepAnswer(wire: seq<Frame>, l: Ledger, n: nat)
    requires Good(wire, l) && Enabled(wire, l, Answer(n))
    ensures Good(wire, Step(wire, l, Answer(n)))
  {
    hide RealIn, HeartbeatsIn, Range, InOrder, Below, NoneOn, IsHeartbeat;
    var last := l.next + n - 1;
    var others := RealIn(wire, l.next, last);
    HeartbeatsAreHeartbeats(wire, l.next, last);
    RangesIncrease(wire, l.next, last);
    AccountFor(wire, l, last);
    RangeLast(0, last);
    AppendLater(wire, l.delivered + l.queue, l.next, others, last);
    assert (l.delivered + l.queue) + others == l.delivered + (l.queue + others);
    BelowMore(l.delivered + (l.queue + others), last);
  }

  lemma KeepDrain(wire: seq<Frame>, l: Ledger, n: nat)
    requires Good(wire, l) && Enabled(wire, l, Drain(n))
    ensures Good(wire, Step(wire, l, Drain(n)))
  {
    hide RealIn, HeartbeatsIn, Range, InOrder, Below;
    var end := l.next + n;
    RangeProperties(wire, l.next, end);
    RangeConcat(0, l.next, end);
    AppendLater(wire, l.delivered + l.queue, l.next, Range(l.next, end), end);
    assert (l.delivered + l.queue) + Range(l.next, end) == l.delivered + (l.queue + Range(l.next, end));
  }

  lemma KeepTakeOn(wire: seq<Frame>, l: Ledger, ch: UInt16)
    requires Good(wire, l) && Enabled(wire, l, TakeOn(ch))
    ensures Good(wire, Step(wire, l, TakeOn(ch)))
  {
    hide Range, InOrder, Below, FirstOn;
    var k := FirstOn(FramesAt(wire, l.queue), ch);
    var before, match_, after := l.queue[..k], [l.queue[k]], l.queue[k + 1..];
    assert l.queue == before + (match_ + after);
    RemoveMiddle(wire, l.delivered, before, match_ + after, l.next);
    assert l.delivered + (match_ + after) == (l.delivered + match_) + after;
  }

  lemma KeepTakeFirst(wire: seq<Frame>, l: Ledger)
    requires Good(wire, l) && l.queue != []
    ensures Good(wire, Step(wire, l, TakeFirst))
  {
    hide Range, InOrder, Below;
    assert l.queue == [l.queue[0]] + l.queue[1..];
    assert (l.delivered + [l.queue[0]]) + l.queue[1..] == l.delivered + l.queue;
  }

  lemma MoveLast(d: seq<nat>, q: seq<nat>)
    requires d != []
    ensures var n := |d| - 1;
            multiset(d[..n]) + multiset([d[n]] + q) == multiset(d) + multiset(q) && d[..n] + ([d[n]] + q) == d + q
  {
    var n := |d| - 1;
    assert d == d[..n] + [d[n]];
  }

  lemma KeepPutBack(wire: seq<Frame>, l: Ledger)
    requires Good(wire, l) && l.delivered != []
    ensures Good(wire, Step(wire, l, PutBack))
  {
    hide Range, InOrder, Below, IsHeartbeat;
    MoveLast(l.delivered, l.queue);
  }

  lemma StepKeeps(wire: seq<Frame>, l: Ledger, act: Act)
    requires Good(wire, l) && Enabled(wire, l, act)
    ensures Good(wire, Step(wire, l, act))
  {
    match act
    case TakeFirst => KeepTakeFirst(wire, l);
    case PutBack => KeepPutBack(wire, l);
    case TakeOn(ch) => KeepTakeOn(wire, l, ch);
    case Read(n, d) => KeepRead(wire, l, n, d);
    case Answer(n) => KeepAnswer(wire, l, n);
    case Drain(n) => KeepDrain(wire, l, n);
  }

  lemma {:induction false} RunsAreGood(wire: seq<Frame>, ledgers: seq<Ledger>, acts: seq<Act>, k: nat)
    requires IsRun(wire, ledgers, acts) && k <= |acts|
    ensures Good(wire, ledgers[k])
    decreases k
  {
    if k > 0 {
      RunsAreGood(wire, ledgers, acts, k - 1);
      StepKeeps(wire, ledgers[k - 1], acts[k - 1]);
    }
  }

  // ----- Main result -----

  /** The frames a channel still has or has had: delivered, then queued, then not yet parsed. */
  function Sequence(wire: seq<Frame>, l: Ledger): seq<nat>
  {
    l.delivered + l.queue + Range(l.next, |wire|)
  }

  /**
    Per-channel order, over every run: the frames delivered, then those queued, then those not yet
    parsed are, channel by channel, in wire order; and they are all frames of the wire, each once,
    except exactly the RPC replies, the heartbeats dropped, and the frames cut off ahead of a match.
   */
  lemma PerChannelOrder(wire: seq<Frame>, ledgers: seq<Ledger>, acts: seq<Act>, k: nat)
    requires IsRun(wire, ledgers, acts) && k <= |acts|
    ensures var l := ledgers[k];
            && InOrder(wire, Sequence(wire, l))
            && multiset(Sequence(wire, l)) + multiset(l.replies) + multiset(l.heartbeats) + multiset(l.cut) ==
               multiset(Range(0, |wire|))
            && (forall i :: 0 <= i < |l.heartbeats| ==> IsHeartbeat(wire, l.heartbeats[i]))
  {
    hide InOrder, Range;
    var l := ledgers[k];
    RunsAreGood(wire, ledgers, acts, k);
    RangeProperties(wire, l.next, |wire|);
    AppendLater(wire, l.delivered + l.queue, l.next, Range(l.next, |wire|), |wire|);
    RangeConcat(0, l.next, |wire|);
  }

  // ----- The operations of a connection take these steps -----

  /** The queue and the frames to come of a connection are those of the ledger. */
  predicate Represents(wire: seq<Frame>, l: Ledger, q: seq<Frame>, ahead: seq<Frame>)
  {
    l.next <= |wire| && Below(l.queue, l.next) && q == FramesAt(wire, l.queue) && ahead == wire[l.next..]
  }

  lemma {:induction false} RealFrames(wire: seq<Frame>, a: nat, b: nat)
    requires a <= b <= |wire|
    ensures FramesAt(wire, RealIn(wire, a, b)) == Real(wire[a..b]) && Below(RealIn(wire, a, b), b)
    decreases b
  {
    if a < b {
      RealFrames(wire, a, b - 1);
      var s := wire[a..b];
      assert s[..|s| - 1] == wire[a..b - 1] && s[|s| - 1] == wire[b - 1];
    }
  }

  lemma RangeFrames(wire: seq<Frame>, a: nat, b: nat)
    requires a <= b <= |wire|
    ensures FramesAt(wire, Range(a, b)) == wire[a..b] && Below(Range(a, b), b)
    decreases b
  {
    if a < b {
      RangeFrames(wire, a, b - 1);
      assert wire[a..b] == wire[a..b - 1] + [wire[b - 1]];
    }
  }

  lemma FramesConcat(wire: seq<Frame>, s: seq<nat>, t: seq<nat>, n: nat, m: nat)
    requires Below(s, n) && Below(t, m) && n <= m
    ensures FramesAt(wire, s + t) == FramesAt(wire, s) + FramesAt(wire, t) && Below(s + t, m)
  {
  }

  /** The frames taken are the next ones on the wire. */
  lemma TakenIsNext(wire: seq<Frame>, n: nat, before: seq<Frame>, after: seq<Frame>)
    requires n <= |wire| && before == wire[n..] && IsSuffix(before, after)
    ensures var end := n + |Taken(before, after)|;
            end <= |wire| && Taken(before, after) == wire[n..end] && after == wire[end..]
  {
  }

  /** A wait on a channel that finds its frame in the queue. */
  lemma TakingFromQueue(wire: seq<Frame>, l: Ledger, q: seq<Frame>, ahead: seq<Frame>, ch: UInt16)
    requires Represents(wire, l, q, ahead) && FirstOn(q, ch) < |q|
    ensures var k := FirstOn(q, ch);
            && Enabled(wire, l, TakeOn(ch))
            && var l' := Step(wire, l, TakeOn(ch));
               && Represents(wire, l', q[k + 1..], ahead)
               && FramesAt(wire, l'.delivered) == FramesAt(wire, l.delivered) + [q[k]]
  {
  }

  /** `amqp_simple_wait_frame_noblock` with frames in the queue. */
  lemma TakingFirst(wire: seq<Frame>, l: Ledger, q: seq<Frame>, ahead: seq<Frame>)
    requires Represents(wire, l, q, ahead) && q != []
    ensures Enabled(wire, l, TakeFirst)
    ensures var l' := Step(wire, l, TakeFirst);
            Represents(wire, l', q[1..], ahead) && FramesAt(wire, l'.delivered) == FramesAt(wire, l.delivered) + [q[0]]
  {
  }

  /** `amqp_put_back_frame` of the frame that was delivered last. */
  lemma PuttingBack(wire: seq<Frame>, l: Ledger, q: seq<Frame>, ahead: seq<Frame>, f: Frame)
    requires Represents(wire, l, q, ahead) && l.delivered != [] && Below(l.delivered, l.next)
    requires f == FramesAt(wire, l.delivered)[|l.delivered| - 1]
    ensures Enabled(wire, l, PutBack)
    ensures var l' := Step(wire, l, PutBack);
            Represents(wire, l', [f] + q, ahead) && FramesAt(wire, l'.delivered) + [f] == FramesAt(wire, l.delivered)
  {
  }

  /** A wait that reads from the socket: what `WaitOnChannel` promises is a `Read`. */
  lemma WaitingIsReading(
      wire: seq<Frame>, l: Ledger, q: seq<Frame>, q': seq<Frame>, before: seq<Frame>, after: seq<Frame>, ch: UInt16, w: Waited)
    requires Represents(wire, l, q, before) && FirstOn(q, ch) == |q|
    requires IsSuffix(before, after) && Sorted(Taken(before, after), ch, q, q', w)
    ensures var act := Read(|Taken(before, after)|, w.Delivered?);
            && Enabled(wire, l, act)
            && var l' := Step(wire, l, act);
               && Represents(wire, l', q', after)
               && FramesAt(wire, l'.delivered) ==
                  FramesAt(wire, l.delivered) + (if w.Delivered? then [w.frame] else [])
  {
    hide Real, RealIn, HeartbeatsIn, OnChannel, FirstOn, NoneOn, FramesAt, Below;
    var taken := Taken(before, after);
    TakenIsNext(wire, l.next, before, after);
    var last := if w.Delivered? then l.next + |taken| - 1 else l.next + |taken|;
    assert taken[..last - l.next] == wire[l.next..last];
    assert !w.Delivered? ==> taken[..|taken|] == taken;
    RealFrames(wire, l.next, last);
    FramesConcat(wire, l.queue, RealIn(wire, l.next, last), l.next, last);
    if w.Delivered? {
      assert wire[last] == w.frame;
      OnlyLastOn(taken, ch);
      NoneOfThem(wire, l.queue + RealIn(wire, l.next, last), q, taken[..|taken| - 1], ch, last);
      OneFrameMore(wire, l.delivered, last);
      BelowMore(l.queue + RealIn(wire, l.next, last), last);
    } else {
      assert FramesAt(wire, l.delivered) + [] == FramesAt(wire, l.delivered);
    }
  }

  lemma OneFrameMore(wire: seq<Frame>, s: seq<nat>, n: nat)
    requires n < |wire|
    ensures FramesAt(wire, s + [n]) == FramesAt(wire, s) + [wire[n]]
  {
  }

  lemma BelowMore(s: seq<nat>, n: nat)
    requires Below(s, n)
    ensures Below(s, n + 1)
  {
  }

  lemma OnlyLastOn(taken: seq<Frame>, ch: UInt16)
    requires taken != [] && IsRealOn(taken[|taken| - 1], ch) && OnChannel(taken, ch) == [taken[|taken| - 1]]
    ensures OnChannel(taken[..|taken| - 1], ch) == []
  {
    assert |OnChannel(taken, ch)| == |OnChannel(taken[..|taken| - 1], ch)| + 1;
  }

  lemma NoneOfThem(wire: seq<Frame>, s: seq<nat>, q: seq<Frame>, front: seq<Frame>, ch: UInt16, n: nat)
    requires Below(s, n) && n <= |wire| && FramesAt(wire, s) == q + Real(front)
    requires FirstOn(q, ch) == |q| && OnChannel(front, ch) == []
    ensures NoneOn(wire, s, ch)
  {
    hide Real, OnChannel, FirstOn, FramesAt, NoneOn, Below;
    NoneRealOn(front, ch);
    NoneFramesNoneOn(wire, s, ch, n);
  }

  lemma {:induction false} NoneRealOn(fs: seq<Frame>, ch: UInt16)
    requires OnChannel(fs, ch) == []
    ensures forall i :: 0 <= i < |Real(fs)| ==> ChannelOfFrame(Real(fs)[i]) != ch
    decreases |fs|
  {
    if fs != [] {
      NoneRealOn(fs[..|fs| - 1], ch);
    }
  }

  lemma NoneFramesNoneOn(wire: seq<Frame>, s: seq<nat>, ch: UInt16, n: nat)
    requires Below(s, n) && n <= |wire|
    requires forall i :: 0 <= i < |s| ==> ChannelOfFrame(FramesAt(wire, s)[i]) != ch
    ensures NoneOn(wire, s, ch)
  {
    forall i | 0 <= i < |s|
      ensures Channel(wire, s[i]) != ch
    {
      assert FramesAt(wire, s)[i] == wire[s[i]];
    }
  }

  /** `amqp_simple_wait_frame_noblock` with an empty queue is a wait on the channel of the frame it returns. */
  lemma WaitingForAny(before: Incoming, after: Incoming, w: Waited)
    requires Passed(before, after, w)
    ensures var ch := if w.Delivered? then ChannelOfFrame(w.frame) else 0;
            && IsSuffix(before.frames, after.frames)
            && Sorted(Taken(before.frames, after.frames), ch, [], [], w)
  {
    var ch := if w.Delivered? then ChannelOfFrame(w.frame) else 0;
    SortedNothing(before.frames, ch, []);
    SortedMore(before.frames, before, after, ch, [], [], w);
  }

  /** What `AwaitReply` promises is an `Answer`, or a `Read` if there was none. */
  lemma AwaitingIsReading(
      wire: seq<Frame>, l: Ledger, q: seq<Frame>, q': seq<Frame>, before: seq<Frame>, after: seq<Frame>, call: Call, r: Reply)
    requires Represents(wire, l, q, before) && IsSuffix(before, after)
    requires Answered(call, Taken(before, after), q, q', r)
    ensures var n := |Taken(before, after)|;
            var act := if r.LibraryException? then Read(n, false) else Answer(n);
            && Enabled(wire, l, act)
            && var l' := Step(wire, l, act);
               && Represents(wire, l', q', after)
               && FramesAt(wire, l'.delivered) == FramesAt(wire, l.delivered)
               && (!r.LibraryException? ==> FramesAt(wire, l'.replies) == FramesAt(wire, l.replies) + [r.frame])
  {
    hide Real, RealIn, HeartbeatsIn, Matches, NoneMatches;
    var taken := Taken(before, after);
    TakenIsNext(wire, l.next, before, after);
    var last := if r.LibraryException? then l.next + |taken| else l.next + |taken| - 1;
    assert taken[..last - l.next] == wire[l.next..last];
    assert r.LibraryException? ==> taken[..|taken|] == taken;
    RealFrames(wire, l.next, last);
    FramesConcat(wire, l.queue, RealIn(wire, l.next, last), l.next, last);
    if !r.LibraryException? {
      assert wire[last] == r.frame;
      MatchIsMethod(call, r.frame);
    }
  }

  lemma MatchIsMethod(call: Call, f: Frame)
    requires Matches(call, f)
    ensures f.Method?
  {
  }

  /** What `TryRecv` promises is a `Drain`. */
  lemma DrainingIsDraining(wire: seq<Frame>, l: Ledger, q: seq<Frame>, before: seq<Frame>, after: seq<Frame>)
    requires Represents(wire, l, q, before) && IsSuffix(before, after)
    ensures var act := Drain(|Taken(before, after)|);
            Enabled(wire, l, act) && Represents(wire, Step(wire, l, act), q + Taken(before, after), after)
  {
    hide Range;
    TakenIsNext(wire, l.next, before, after);
    var end := l.next + |Taken(before, after)|;
    RangeFrames(wire, l.next, end);
    FramesConcat(wire, l.queue, Range(l.next, end), l.next, end);
  }
}
