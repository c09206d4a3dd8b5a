/**
  The queue of received frames (amqp_socket.c): a singly linked list with a first and a last pointer.
 */
module FrameQueue {
  import opened Wire
  import opened Framing

  function ChannelOfFrame(f: Frame): UInt16
  {
    if f.ProtocolHeader? then 0 else f.channel
  }

  /** Position of the first frame of channel `ch`; the length if there is none. */
  function FirstOn(q: seq<Frame>, ch: UInt16): (k: nat)
    ensures k <= |q|
    ensures k < |q| ==> ChannelOfFrame(q[k]) == ch
    ensures forall i :: 0 <= i < k ==> ChannelOfFrame(q[i]) != ch
  {
    if q == [] || ChannelOfFrame(q[0]) == ch then 0 else 1 + FirstOn(q[1..], ch)
  }

  class Link {
    var next: Link?
    const frame: Frame

    constructor (frame: Frame)
      ensures this.frame == frame && next == null
    {
      this.frame, next := frame, null;
    }
  }

  class Queue {
    var first: Link?
    var last: Link?
    ghost var links: seq<Link>

    /** The links form a list from `first` to `last`; in particular one pointer is null exactly when the other is. */
    ghost predicate Valid()
      reads this, links
    {
      && (first == null <==> links == [])
      && (last == null <==> links == [])
      && (links != [] ==> first == links[0] && last == links[|links| - 1] && last.next == null)
      && (forall i :: 0 <= i < |links| - 1 ==> links[i].next == links[i + 1])
      && (forall i, j :: 0 <= i < j < |links| ==> links[i] != links[j])
    }

    ghost function Contents(): (q: seq<Frame>)
      reads this, links
      ensures |q| == |links|
    {
      seq(|links|, i requires 0 <= i < |links| reads this, links => links[i].frame)
    }

    constructor ()
      ensures Valid() && Contents() == [] && fresh(links)
    {
      first, last, links := null, null, [];
    }

    /** `amqp_queue_frame` */
    method Append(f: Frame)
      requires Valid()
      modifies this, links
      ensures Valid() && Contents() == old(Contents()) + [f]
      ensures forall i :: 0 <= i < |links| ==> links[i] in old(links) || fresh(links[i])
    {
      var link := new Link(f);
      if first == null {
        first := link;
      } else {
        last.next := link;
      }
      last := link;
      links := links + [link];
    }

    /** The queueing in `amqp_try_recv` and `simple_rpc_inner`, which looks at the last pointer instead. */
    method AppendBehindLast(f: Frame)
      requires Valid()
      modifies this, links
      ensures Valid() && Contents() == old(Contents()) + [f]
      ensures forall i :: 0 <= i < |links| ==> links[i] in old(links) || fresh(links[i])
    {
      var link := new Link(f);
      if last == null {
        first := link;
      } else {
        last.next := link;
      }
      last := link;
      links := links + [link];
    }

    /** `amqp_put_back_frame` */
    method PutBack(f: Frame)
      requires Valid()
      modifies this, links
      ensures Valid() && Contents() == [f] + old(Contents())
      ensures forall i :: 0 <= i < |links| ==> links[i] in old(links) || fresh(links[i])
    {
      var link := new Link(f);
      if first == null {
        first := link;
        last := link;
      } else {
        link.next := first;
        first := link;
      }
      links := [link] + links;
    }

    /** The queue part of `amqp_simple_wait_frame_noblock`. */
    method TakeFirst() returns (f: Frame)
      requires Valid() && Contents() != []
      modifies this
      ensures Valid() && f == old(Contents())[0] && Contents() == old(Contents())[1..]
      ensures forall i :: 0 <= i < |links| ==> links[i] in old(links)
    {
      f := first.frame;
      assert first == links[0] && (|links| > 1 ==> links[0].next == links[1]);
      first := first.next;
      if first == null {
        last := null;
      }
      links := links[1..];
    }

    /**
      The queue part of `amqp_simple_wait_frame_on_channel`: the list is cut behind the match, so the
      frames of other channels ahead of it are dropped.
     */
    method TakeOnChannel(ch: UInt16) returns (found: bool, f: Frame)
      requires Valid()
      modifies this
      ensures Valid()
      ensures var q, k := old(Contents()), FirstOn(old(Contents()), ch);
              && found == (k < |q|)
              && (found ==> f == q[k] && Contents() == q[k + 1..])
              && (!found ==> Contents() == q)
      ensures forall i :: 0 <= i < |links| ==> links[i] in old(links)
    {
      ghost var q := Contents();
      var cur := first;
      ghost var k := 0;
      while cur != null
        invariant 0 <= k <= |links| && (cur == null <==> k == |links|) && (cur != null ==> cur == links[k])
        invariant forall i :: 0 <= i < k ==> ChannelOfFrame(q[i]) != ch
        decreases |links| - k
      {
        assert cur == links[k] && (k + 1 < |links| ==> links[k].next == links[k + 1]);
        assert k + 1 == |links| ==> links[k] == last;
        if ChannelOfFrame(cur.frame) == ch {
          FirstOnUnique(q, ch, k);
          first := cur.next;
          if first == null {
            last := null;
          }
          links := links[k + 1..];
          return true, cur.frame;
        }
        cur, k := cur.next, k + 1;
      }
      FirstOnUnique(q, ch, k);
      found, f := false, Heartbeat(0);
    }
  }

  lemma FirstOnUnique(q: seq<Frame>, ch: UInt16, k: nat)
    requires k <= |q| && (k < |q| ==> ChannelOfFrame(q[k]) == ch)
    requires forall i :: 0 <= i < k ==> ChannelOfFrame(q[i]) != ch
    ensures FirstOn(q, ch) == k
  {
    hide FirstOn;
  }
}
