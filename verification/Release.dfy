/**
  Which memory may be released when (amqp_connection.c, amqp_socket.c). A queued frame has four blocks:
  its list link, its copy, its raw bytes and its decoded struct; a partly received frame has its raw bytes.
  All of them are chunks handed out by the pool of the frame's own channel, and die when it is recycled.
 */
module Release {
  import opened Wire
  import opened Framing
  import opened Pool
  import opened PoolTable

  /** The chunk that the pool of `channel` handed out as number `index` of its epoch `generation`. */
  datatype Block = Block(channel: UInt16, generation: nat, index: nat, chunk: Chunk)

  datatype Home = Home(link: Block, copy: Block, raw: Block, decoded: Block)

  function BlocksOf(h: Home): seq<Block>
  {
    [h.link, h.copy, h.raw, h.decoded]
  }

  /** The block is one of those handed out by the pool of channel `ch` since it was last recycled. */
  predicate LivesIn(b: Block, ch: UInt16, epochs: map<UInt16, Epoch>)
  {
    && b.channel == ch && ch in epochs && epochs[ch].generation == b.generation
    && b.index < |epochs[ch].live| && epochs[ch].live[b.index] == b.chunk
  }

  predicate HomeLivesIn(h: Home, ch: UInt16, epochs: map<UInt16, Epoch>)
  {
    LivesIn(h.link, ch, epochs) && LivesIn(h.copy, ch, epochs) && LivesIn(h.raw, ch, epochs) && LivesIn(h.decoded, ch, epochs)
  }

  /** The block was asked for with that many bytes. */
  predicate HasRoom(b: Block, amount: nat)
  {
    !b.chunk.Null? && b.chunk.amount == amount
  }

  /** Not the same block. */
  predicate Apart(b: Block, c: Block)
  {
    b.channel != c.channel || b.index != c.index
  }

  predicate ApartFrom(h: Home, b: Block)
  {
    Apart(h.link, b) && Apart(h.copy, b) && Apart(h.raw, b) && Apart(h.decoded, b)
  }

  /** No block belongs to two frames, or to one frame twice. */
  ghost predicate AllApart(homes: seq<Home>)
  {
    && (forall i :: 0 <= i < |homes| ==> InnerApart(homes[i]))
    && (forall i, j :: 0 <= i < j < |homes| ==> HomesApart(homes[i], homes[j]))
  }

  predicate InnerApart(h: Home)
  {
    && Apart(h.link, h.copy) && Apart(h.link, h.raw) && Apart(h.link, h.decoded)
    && Apart(h.copy, h.raw) && Apart(h.copy, h.decoded) && Apart(h.raw, h.decoded)
  }

  predicate HomesApart(h: Home, k: Home)
  {
    ApartFrom(h, k.link) && ApartFrom(h, k.copy) && ApartFrom(h, k.raw) && ApartFrom(h, k.decoded)
  }

  ghost predicate NoneHas(homes: seq<Home>, b: Block)
  {
    forall i :: 0 <= i < |homes| ==> ApartFrom(homes[i], b)
  }

  lemma OneMoreHome(homes: seq<Home>, h: Home)
    requires AllApart(homes) && InnerApart(h)
    requires NoneHas(homes, h.link) && NoneHas(homes, h.copy) && NoneHas(homes, h.raw) && NoneHas(homes, h.decoded)
    ensures AllApart(homes + [h]) && AllApart([h] + homes)
    ensures forall b :: NoneHas(homes, b) && ApartFrom(h, b) ==> NoneHas(homes + [h], b) && NoneHas([h] + homes, b)
  {
    hide Apart, InnerApart;
    forall i | 0 <= i < |homes|
      ensures HomesApart(homes[i], h) && HomesApart(h, homes[i])
    {
      ApartBothWays(homes[i], h);
    }
  }

  lemma ApartBothWays(h: Home, k: Home)
    requires HomesApart(h, k)
    ensures HomesApart(k, h)
  {
  }

  /** A home whose link and copy were made last. */
  lemma HomeIsApart(link: Block, copy: Block, raw: Block, decoded: Block)
    requires Apart(raw, decoded) && Apart(raw, copy) && Apart(decoded, copy) && Apart(raw, link) && Apart(decoded, link) && Apart(copy, link)
    ensures InnerApart(Home(link, copy, raw, decoded))
    ensures forall b :: Apart(raw, b) && Apart(decoded, b) && Apart(b, copy) && Apart(b, link) ==> ApartFrom(Home(link, copy, raw, decoded), b)
  {
  }

  /** The chunk handed out next is a new block, and the others stay. */
  lemma GrownEpochs(epochs: map<UInt16, Epoch>, ch: UInt16, chunk: Chunk, b: Block)
    requires var e := if ch in epochs then epochs[ch] else Epoch(0, []);
             b == Block(ch, e.generation, |e.live|, chunk)
    ensures LivesIn(b, ch, Grown(epochs, ch, chunk))
    ensures forall x, c :: LivesIn(x, c, epochs) ==> LivesIn(x, c, Grown(epochs, ch, chunk)) && Apart(x, b)
  {
  }

  class ConnectionBuffers {
    const table: ChannelPools
    var phase: Phase
    var inboundChannel: UInt16
    /** The channel of each queued frame, in queue order. */
    var queue: seq<UInt16>
    ghost var inbound: Block
    ghost var homes: seq<Home>

    /**
      Every block of a queued or partly received frame is live in the pool of the frame's own channel, and
      no two of these blocks are the same.
     */
    ghost predicate Valid()
      reads this, table, table.buckets, table.pools.Values
    {
      && table.Valid()
      && Safe(table.Epochs())
    }

    ghost predicate Safe(epochs: map<UInt16, Epoch>)
      reads this
    {
      && |homes| == |queue| && AllApart(homes)
      && (forall i :: 0 <= i < |queue| ==> HomeLivesIn(homes[i], queue[i], epochs))
      && (phase == InBody ==> LivesIn(inbound, inboundChannel, epochs) && NoneHas(homes, inbound))
    }

    /** A frame of channel `ch` in the hands of the library: read or dequeued, and not queued. */
    ghost predicate Held(ch: UInt16, raw: Block, decoded: Block)
      reads this, table, table.pools.Values
    {
      && LivesIn(raw, ch, table.Epochs()) && LivesIn(decoded, ch, table.Epochs()) && Apart(raw, decoded)
      && NoneHas(homes, raw) && NoneHas(homes, decoded)
      && (phase == InBody ==> Apart(raw, inbound) && Apart(decoded, inbound))
    }

    constructor (frameMax: nat)
      ensures Valid() && phase == Initial && queue == [] && table.pools == map[]
      ensures fresh(table) && fresh(table.buckets)
    {
      table := new ChannelPools(frameMax);
      phase, inboundChannel, queue, homes, inbound := Initial, 0, [], [], Block(0, 0, 0, Null);
    }

    /** A new block of the pool of channel `ch`; no other block is lost. */
    method AllocOn(ch: UInt16, amount: nat) returns (block: array?<Byte>, offset: nat, ghost b: Block)
      requires Valid() && amount > 0
      modifies table, table.buckets, table.pools.Values
      ensures Valid() && LivesIn(b, ch, table.Epochs()) && table.pools[ch].IsAt(b.chunk, block, offset)
      ensures HasRoom(b, amount) && block != null && offset + amount <= block.Length
      ensures forall x, c :: LivesIn(x, c, old(table.Epochs())) ==> LivesIn(x, c, table.Epochs()) && Apart(x, b)
      ensures forall p :: p in table.pools.Values ==> p in old(table.pools.Values) || fresh(p)
    {
      hide ChannelPools.Valid, LivesIn, Apart, AllApart, NoneHas, AmqpPool.IsAt;
      ghost var before, chunk := table.Epochs(), Null;
      block, offset, chunk := table.AllocOn(ch, amount);
      b := Block(ch, table.Epochs()[ch].generation, |table.Epochs()[ch].live| - 1, chunk);
      GrownEpochs(before, ch, chunk, b);
    }

    /** The header of a frame is complete: its page comes from the pool of the channel it names. */
    method OpenFrame(ch: UInt16, size: nat)
      requires Valid() && phase != InBody && size > 0
      modifies this`phase, this`inboundChannel, this`inbound, table, table.buckets, table.pools.Values
      ensures Valid() && phase == InBody && inboundChannel == ch && HasRoom(inbound, size)
    {
      hide ChannelPools.Valid, LivesIn, Apart, AllApart;
      ghost var b;
      var block, offset;
      block, offset, b := AllocOn(ch, size);
      inbound, phase, inboundChannel := b, InBody, ch;
    }

    /** The frame is complete: its decoded struct comes from the same pool, and the reader is idle again. */
    method CompleteFrame(size: nat) returns (ch: UInt16, ghost raw: Block, ghost decoded: Block)
      requires Valid() && phase == InBody && size > 0
      modifies this`phase, table, table.buckets, table.pools.Values
      ensures Valid() && phase == Idle && ch == inboundChannel
      ensures forall p :: p in table.pools.Values ==> p in old(table.pools.Values) || fresh(p)
      ensures Held(ch, raw, decoded) && raw == old(inbound) && HasRoom(decoded, size)
    {
      hide ChannelPools.Valid, LivesIn, Apart, AllApart;
      ch := inboundChannel;
      var block, offset;
      block, offset, decoded := AllocOn(ch, size);
      raw, phase := inbound, Idle;
    }

    /** The copy and the link of a frame to be queued, from the pool of the frame's channel. */
    method MakeHome(ch: UInt16, ghost raw: Block, ghost decoded: Block, copySize: nat, linkSize: nat)
        returns (ghost home: Home)
      requires Valid() && Held(ch, raw, decoded) && copySize > 0 && linkSize > 0
      modifies table, table.buckets, table.pools.Values
      ensures Valid() && HomeLivesIn(home, ch, table.Epochs()) && AllApart(homes + [home]) && AllApart([home] + homes)
      ensures home.raw == raw && home.decoded == decoded && HasRoom(home.copy, copySize) && HasRoom(home.link, linkSize)
      ensures phase == InBody ==> NoneHas(homes + [home], inbound) && NoneHas([home] + homes, inbound)
    {
      hide ChannelPools.Valid, LivesIn, Apart, AllApart;
      var block, offset;
      ghost var copy, link;
      block, offset, copy := AllocOn(ch, copySize);
      block, offset, link := AllocOn(ch, linkSize);
      home := Home(link, copy, raw, decoded);
      HomeIsApart(link, copy, raw, decoded);
      OneMoreHome(homes, home);
    }

    /** `amqp_queue_frame`, and the queueing in `amqp_try_recv` and `simple_rpc_inner`. */
    method Enqueue(ch: UInt16, ghost raw: Block, ghost decoded: Block, copySize: nat, linkSize: nat)
      requires Valid() && Held(ch, raw, decoded) && copySize > 0 && linkSize > 0
      modifies this`queue, this`homes, table, table.buckets, table.pools.Values
      ensures Valid() && queue == old(queue) + [ch] && |homes| == |queue|
      ensures var h := homes[|homes| - 1]; h.raw == raw && h.decoded == decoded && HasRoom(h.copy, copySize) && HasRoom(h.link, linkSize)
    {
      hide ChannelPools.Valid, HomeLivesIn, LivesIn, Apart, AllApart, NoneHas;
      ghost var home := MakeHome(ch, raw, decoded, copySize, linkSize);
      queue, homes := queue + [ch], homes + [home];
    }

    /** `amqp_put_back_frame` */
    method PutBack(ch: UInt16, ghost raw: Block, ghost decoded: Block, copySize: nat, linkSize: nat)
      requires Valid() && Held(ch, raw, decoded) && copySize > 0 && linkSize > 0
      modifies this`queue, this`homes, table, table.buckets, table.pools.Values
      ensures Valid() && queue == [ch] + old(queue) && |homes| == |queue|
      ensures var h := homes[0]; h.raw == raw && h.decoded == decoded && HasRoom(h.copy, copySize) && HasRoom(h.link, linkSize)
    {
      hide ChannelPools.Valid, HomeLivesIn, LivesIn, Apart, AllApart, NoneHas;
      ghost var home := MakeHome(ch, raw, decoded, copySize, linkSize);
      queue, homes := [ch] + queue, [home] + homes;
    }

    /** Any dequeuing drops a prefix of the queue; the frame handed out is still alive, and its own. */
    method Dequeue(k: nat) returns (ch: UInt16, ghost home: Home)
      requires Valid() && k < |queue|
      modifies this`queue, this`homes
      ensures Valid() && queue == old(queue)[k + 1..] && ch == old(queue)[k]
      ensures HomeLivesIn(home, ch, table.Epochs()) && Held(ch, home.raw, home.decoded)
    {
      hide ChannelPools.Valid, LivesIn, Apart;
      ch, home := queue[k], homes[k];
      forall j | k < j < |homes|
        ensures ApartFrom(homes[j], home.raw) && ApartFrom(homes[j], home.decoded)
      {
        ApartBothWays(homes[k], homes[j]);
      }
      ApartFromInbound(home, inbound);
      queue, homes := queue[k + 1..], homes[k + 1..];
    }

    lemma ApartFromInbound(home: Home, b: Block)
      ensures ApartFrom(home, b) ==> Apart(home.raw, b) && Apart(home.decoded, b)
    {
    }

    /** Reading a frame that is to be queued: nothing has to be known of its blocks. */
    method ReadAndQueue(size: nat, copySize: nat, linkSize: nat)
      requires Valid() && phase == InBody && size > 0 && copySize > 0 && linkSize > 0
      modifies this`phase, this`queue, this`homes, table, table.buckets, table.pools.Values
      ensures Valid() && phase == Idle && queue == old(queue) + [old(inboundChannel)]
    {
      hide Valid, Held;
      var ch;
      ghost var raw, decoded;
      ch, raw, decoded := CompleteFrame(size);
      Enqueue(ch, raw, decoded, copySize, linkSize);
    }

    /** Taking a frame off the queue and putting it back in front. */
    method TakeAndPutBack(k: nat, copySize: nat, linkSize: nat)
      requires Valid() && k < |queue| && copySize > 0 && linkSize > 0
      modifies this`queue, this`homes, table, table.buckets, table.pools.Values
      ensures Valid() && queue == [old(queue)[k]] + old(queue)[k + 1..]
    {
      hide Valid, Held;
      var ch;
      ghost var home;
      ch, home := Dequeue(k);
      PutBack(ch, home.raw, home.decoded, copySize, linkSize);
    }

    /** Block `m` of queued frame `i` and block `n` of queued frame `j` share no byte, unless they are the same block. */
    lemma QueuedFramesShareNothing(i: nat, m: nat, j: nat, n: nat)
      requires Valid() && i < |queue| && j < |queue| && m < 4 && n < 4 && (i != j || m != n)
      ensures var b, c := BlocksOf(homes[i])[m], BlocksOf(homes[j])[n];
              && b.channel in table.pools && table.pools[b.channel].Valid() && Placed(table.pools[b.channel].View(), b.chunk)
              && c.channel in table.pools && table.pools[c.channel].Valid() && Placed(table.pools[c.channel].View(), c.chunk)
              && (table.ArrayOf(b.channel, b.chunk) != table.ArrayOf(c.channel, c.chunk)
                  || (b.chunk.InPage? && c.chunk.InPage?
                      && (b.chunk.offset + b.chunk.amount <= c.chunk.offset || c.chunk.offset + c.chunk.amount <= b.chunk.offset)))
    {
      hide ChannelPools.Valid, Placed, AmqpPool.Valid, AmqpPool.View, ChannelPools.ArrayOf;
      var b, c := BlocksOf(homes[i])[m], BlocksOf(homes[j])[n];
      BlocksApart(i, m, j, n);
      assert HomeLivesIn(homes[i], queue[i], table.Epochs()) && HomeLivesIn(homes[j], queue[j], table.Epochs());
      PoolsAreValid(b.channel);
      PoolsAreValid(c.channel);
      table.ChunksShareNothing(b.channel, b.index, c.channel, c.index);
    }

    lemma PoolsAreValid(ch: UInt16)
      requires table.Valid()
      ensures ch in table.pools ==> table.pools[ch].Valid()
    {
    }

    lemma BlocksApart(i: nat, m: nat, j: nat, n: nat)
      requires Safe(table.Epochs()) && i < |queue| && j < |queue| && m < 4 && n < 4 && (i != j || m != n)
      ensures Apart(BlocksOf(homes[i])[m], BlocksOf(homes[j])[n])
    {
      if i < j {
        assert HomesApart(homes[i], homes[j]);
      } else if j < i {
        assert HomesApart(homes[j], homes[i]);
      } else {
        assert InnerApart(homes[i]);
      }
    }

    /** `amqp_maybe_release_buffers_on_channel` */
    method ReleaseOnChannel(ch: UInt16)
      requires Valid()
      modifies table.pools.Values
      ensures Valid() && table.pools == old(table.pools)
      // the pool is recycled exactly when no frame is partly received and no frame of the channel is queued
      ensures var before := old(table.Epochs());
              table.Epochs() ==
              if phase == Idle && ch !in queue && ch in before then before[ch := Epoch(before[ch].generation + 1, [])] else before
    {
      hide ChannelPools.Valid;
      if phase != Idle {
        return;
      }
      var i := 0;
      while i < |queue|
        invariant 0 <= i <= |queue| && ch !in queue[..i]
      {
        if queue[i] == ch {
          return;
        }
        i := i + 1;
      }
      assert queue[..i] == queue;
      table.RecycleOn(ch);
      assert Safe(table.Epochs());
    }

    /** A dropped heartbeat: `wait_frame_inner` releases channel 0. */
    method DropHeartbeat(size: nat)
      requires Valid() && phase == InBody && size > 0
      modifies this`phase, table, table.buckets, table.pools.Values
      ensures Valid() && phase == Idle
    {
      hide ChannelPools.Valid, HomeLivesIn, LivesIn;
      var _, _, _ := CompleteFrame(size);
      ReleaseOnChannel(0);
    }

    /** `amqp_release_buffers`: aborts unless the reader is idle. */
    method ReleaseAll()
      requires Valid() && phase == Idle
      modifies table.pools.Values
      ensures Valid() && table.pools == old(table.pools)
      // every channel without a queued frame is recycled, no other channel is touched
      ensures forall c :: c in table.pools ==>
                if c in queue then table.Epochs()[c] == old(table.Epochs()[c])
                else table.Epochs()[c].generation > old(table.Epochs()[c]).generation && table.Epochs()[c].live == []
    {
      hide Valid, ChannelPools.Valid, Released;
      ghost var before, now := table.Epochs(), table.Epochs();
      NothingYet(before);
      for i := 0 to POOL_TABLE_SIZE
        invariant Valid() && now == table.Epochs()
        invariant forall c :: c in before ==> Released(c, before, now, c % POOL_TABLE_SIZE < i)
      {
        now := ReleaseBucket(i, before, now);
      }
      AllReleased(before, now);
    }

    lemma NothingYet(before: map<UInt16, Epoch>)
      ensures forall c :: c in before ==> Released(c, before, before, false)
    {
    }

    lemma AllReleased(before: map<UInt16, Epoch>, now: map<UInt16, Epoch>)
      ensures forall c :: Released(c, before, now, true) ==>
                
                c in before && c in now
                && if c in queue then now[c] == before[c] else now[c].generation > before[c].generation && now[c].live == []
    {
    }

    /** The inner loop: every entry of one bucket. */
    method ReleaseBucket(i: nat, ghost before: map<UInt16, Epoch>, ghost start: map<UInt16, Epoch>)
        returns (ghost now: map<UInt16, Epoch>)
      requires Valid() && phase == Idle && i < POOL_TABLE_SIZE && start == table.Epochs()
      requires before.Keys == table.pools.Keys
      requires forall c :: c in before ==> Released(c, before, start, c % POOL_TABLE_SIZE < i)
      modifies table.pools.Values
      ensures Valid() && now == table.Epochs()
      ensures forall c :: c in before ==> Released(c, before, now, c % POOL_TABLE_SIZE < i + 1)
    {
      hide Valid, Safe, ChannelPools.Valid, Released, ChannelPools.Epochs;
      InBuckets(before);
      var entry := table.buckets[i];
      now := start;
      StartBucket(i, before, now);
      while entry.Link?
        invariant Valid() && now == table.Epochs()
        invariant forall c :: c in before ==> Released(c, before, now, Visited(c, i, entry))
        decreases entry
      {
        ReleaseOnChannel(entry.channel);
        forall c | c in before
          ensures Released(c, before, table.Epochs(), Visited(c, i, entry.next))
        {
          Visit(c, i, before, now, table.Epochs(), entry);
        }
        entry, now := entry.next, table.Epochs();
      }
      EndBucket(i, before, now);
    }

    /** The loops have passed channel `c`: `rest` is what is left of bucket `i`. */
    predicate Visited(c: UInt16, i: nat, rest: Chain)
    {
      c % POOL_TABLE_SIZE < i || (c % POOL_TABLE_SIZE == i && Find(rest, c).None?)
    }

    /** Every channel with a pool is found in its bucket. */
    lemma InBuckets(before: map<UInt16, Epoch>)
      requires Valid() && before.Keys == table.pools.Keys
      ensures table.buckets.Length == POOL_TABLE_SIZE
      ensures forall c :: c in before ==> Find(table.buckets[c % POOL_TABLE_SIZE], c).Some?
    {
    }

    lemma StartBucket(i: nat, before: map<UInt16, Epoch>, now: map<UInt16, Epoch>)
      requires i < POOL_TABLE_SIZE && table.buckets.Length == POOL_TABLE_SIZE
      requires forall c :: c in before ==> Find(table.buckets[c % POOL_TABLE_SIZE], c).Some?
      requires forall c :: c in before ==> Released(c, before, now, c % POOL_TABLE_SIZE < i)
      ensures forall c :: c in before ==> Released(c, before, now, Visited(c, i, table.buckets[i]))
    {
    }

    lemma EndBucket(i: nat, before: map<UInt16, Epoch>, now: map<UInt16, Epoch>)
      requires forall c :: c in before ==> Released(c, before, now, Visited(c, i, End))
      ensures forall c :: c in before ==> Released(c, before, now, c % POOL_TABLE_SIZE < i + 1)
    {
      assert forall c: UInt16 :: Find(End, c).None?;
      assert forall c :: c in before ==> Visited(c, i, End) == (c % POOL_TABLE_SIZE < i + 1);
    }

    lemma Visit(c: UInt16, i: nat, before: map<UInt16, Epoch>, now: map<UInt16, Epoch>, next: map<UInt16, Epoch>, entry: Chain)
      requires entry.Link? && Released(c, before, now, Visited(c, i, entry))
      requires var e := entry.channel;
               next == if e !in queue && e in now then now[e := Epoch(now[e].generation + 1, [])] else now
      ensures Released(c, before, next, Visited(c, i, entry.next))
    {
    }

    /** Channel `c` has been dealt with if `done`, and untouched frames keep their memory in any case. */
    ghost predicate Released(c: UInt16, before: map<UInt16, Epoch>, now: map<UInt16, Epoch>, done: bool)
      reads this
    {
      && c in before && c in now && now[c].generation >= before[c].generation
      && (c in queue ==> now[c] == before[c])
      && (done && c !in queue ==> now[c].generation > before[c].generation && now[c].live == [])
    }
  }
}
