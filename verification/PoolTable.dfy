/**
  The per-channel pool table (amqp_mem.c): a hash table of 16 buckets with chained entries. Entries are
  only ever added in front of a chain, so a chain is an immutable list.
 */
module PoolTable {
  import opened Wire
  import opened Pool

  const POOL_TABLE_SIZE := 16

  datatype Chain = End | Link(channel: UInt16, pool: AmqpPool, next: Chain)

  function Find(chain: Chain, ch: UInt16): Option<AmqpPool>
  {
    match chain
    case End => None
    case Link(c, pool, next) => if c == ch then Some(pool) else Find(next, ch)
  }

  /** No array is in both lists. */
  ghost predicate Separate(p: seq<array<Byte>>, q: seq<array<Byte>>)
  {
    forall i, j :: 0 <= i < |p| && 0 <= j < |q| ==> p[i] != q[j]
  }

  /** The arrays of different channels are different. */
  ghost predicate AllSeparate(owned: map<UInt16, seq<array<Byte>>>)
  {
    forall c, d :: c in owned && d in owned && c != d ==> Separate(owned[c], owned[d])
  }

  lemma SeparateStill(owned: map<UInt16, seq<array<Byte>>>, ch: UInt16, arrays: seq<array<Byte>>)
    requires AllSeparate(owned)
    requires forall c, i :: c in owned && c != ch && 0 <= i < |arrays| ==> (ch in owned && arrays[i] in owned[ch]) || arrays[i] !in owned[c]
    ensures AllSeparate(owned[ch := arrays])
  {
    forall c | c in owned && c != ch
      ensures Separate(arrays, owned[c]) && Separate(owned[c], arrays)
    {
      if ch in owned {
        assert Separate(owned[ch], owned[c]);
      }
    }
  }

  class ChannelPools {
    const frameMax: nat
    const buckets: array<Chain>
    /** The map the table refines. */
    ghost var pools: map<UInt16, AmqpPool>

    ghost predicate Valid()
      reads this, buckets, pools.Values
    {
      Mapped() && (forall c :: c in pools ==> pools[c].Valid()) && AllSeparate(Owned())
    }

    /** The chains hold the map, and no two channels share a pool. */
    ghost predicate Mapped()
      reads this, buckets
    {
      && buckets.Length == POOL_TABLE_SIZE
      && (forall c: UInt16 :: Find(buckets[c % POOL_TABLE_SIZE], c) == if c in pools then Some(pools[c]) else None)
      && (forall c, d :: c in pools && d in pools && c != d ==> pools[c] != pools[d])
    }

    constructor (frameMax: nat)
      ensures Valid() && pools == map[] && this.frameMax == frameMax && fresh(buckets)
    {
      this.frameMax := frameMax;
      buckets := new Chain[POOL_TABLE_SIZE](_ => End);
      pools := map[];
    }

    /** `amqp_get_channel_pool` */
    method Get(ch: UInt16) returns (pool: AmqpPool?)
      requires Valid()
      ensures pool == if ch in pools then pools[ch] else null
    {
      var entry := buckets[ch % POOL_TABLE_SIZE];
      pool := null;
      while entry.Link?
        invariant Find(entry, ch) == Find(buckets[ch % POOL_TABLE_SIZE], ch)
        decreases entry
      {
        if entry.channel == ch {
          return entry.pool;
        }
        entry := entry.next;
      }
    }

    /** `amqp_get_or_create_channel_pool` */
    method GetOrCreate(ch: UInt16) returns (pool: AmqpPool)
      requires Valid()
      modifies this, buckets
      ensures Valid()
      ensures pools == if ch in old(pools) then old(pools) else old(pools)[ch := pool]
      ensures pool == pools[ch]
      ensures Epochs() == if ch in old(pools) then old(Epochs()) else old(Epochs())[ch := Epoch(0, [])]
      ensures ch !in old(pools) ==> fresh(pool) && pool.View() == Init(frameMax)
    {
      hide Valid, Find, AmqpPool.View, AmqpPool.Valid;
      var found := Get(ch);
      if found != null {
        return found;
      }
      pool := Insert(ch);
    }

    /** A new pool in front of its bucket's chain. */
    method Insert(ch: UInt16) returns (pool: AmqpPool)
      requires Valid() && ch !in pools
      modifies this, buckets
      ensures Valid() && pools == old(pools)[ch := pool]
      ensures fresh(pool) && pool.View() == Init(frameMax) && pool.epoch == Epoch(0, [])
    {
      hide AmqpPool.Valid, AmqpPool.View, AmqpPool.Arrays, AllSeparate, Mapped;
      ghost var owned := Owned();
      pool := new AmqpPool(frameMax);
      LinkIn(ch, pool);
      SeparateStill(owned, ch, []);
      assert Owned() == owned[ch := []];
    }

    /** The new entry goes in front of its chain. */
    method LinkIn(ch: UInt16, pool: AmqpPool)
      requires Mapped() && ch !in pools && pool !in pools.Values
      modifies this`pools, buckets
      ensures Mapped() && pools == old(pools)[ch := pool]
    {
      var index := ch % POOL_TABLE_SIZE;
      buckets[index] := Link(ch, pool, buckets[index]);
      pools := pools[ch := pool];
    }

    lemma OthersDiffer(ch: UInt16)
      requires Mapped() && ch in pools
      ensures forall c :: c in pools && c != ch ==> pools[c] != pools[ch]
    {
    }

    /** The arrays of each channel's pool. */
    ghost function Owned(): map<UInt16, seq<array<Byte>>>
      reads this, pools.Values
    {
      map c | c in pools :: pools[c].Arrays()
    }

    /** The epoch of each channel's pool. */
    ghost function Epochs(): map<UInt16, Epoch>
      reads this, pools.Values
    {
      map c | c in pools :: pools[c].epoch
    }

    /** Allocating from a channel's pool disturbs no other pool. */
    method AllocFrom(ch: UInt16, pool: AmqpPool, amount: nat) returns (block: array?<Byte>, offset: nat, ghost chunk: Chunk)
      requires Valid() && ch in pools && pools[ch] == pool && amount > 0
      modifies pool
      ensures Valid() && Epochs() == Grown(old(Epochs()), ch, chunk) && pool.IsAt(chunk, block, offset)
      ensures !chunk.Null? && chunk.amount == amount && block != null && offset + amount <= block.Length
    {
      hide AmqpPool.Valid, AmqpPool.View, AmqpPool.IsAt, Mapped, Allocated, AllSeparate;
      ghost var owned := Owned();
      OthersDiffer(ch);
      chunk := Allocated(pool.View(), amount).1;
      block, offset := pool.Alloc(amount);
      SeparateStill(owned, ch, pool.Arrays());
      assert Owned() == owned[ch := pool.Arrays()];
    }

    /** Finds or creates the pool of a channel and allocates from it. */
    method AllocOn(ch: UInt16, amount: nat) returns (block: array?<Byte>, offset: nat, ghost chunk: Chunk)
      requires Valid() && amount > 0
      modifies this, buckets, pools.Values
      ensures Valid() && ch in pools && pools[ch].IsAt(chunk, block, offset)
      ensures !chunk.Null? && chunk.amount == amount && block != null && offset + amount <= block.Length
      ensures Epochs() == Grown(old(Epochs()), ch, chunk)
      ensures forall p :: p in pools.Values ==> p in old(pools.Values) || fresh(p)
    {
      hide Valid, AmqpPool.View, AmqpPool.IsAt;
      var pool := GetOrCreate(ch);
      assert pools[ch] == pool;
      block, offset, chunk := AllocFrom(ch, pool, amount);
    }

    /** Recycles the pool of a channel, if it has one, and no other. */
    method RecycleOn(ch: UInt16)
      requires Valid()
      modifies pools.Values
      ensures Valid() && pools == old(pools)
      ensures Epochs() == if ch in pools then old(Epochs())[ch := Epoch(old(Epochs())[ch].generation + 1, [])] else old(Epochs())
    {
      hide AmqpPool.Valid, AmqpPool.View, AmqpPool.Arrays, Mapped, Recycled, AllSeparate;
      var pool := Get(ch);
      if pool != null {
        ghost var owned := Owned();
        OthersDiffer(ch);
        pool.Recycle();
        SeparateStill(owned, ch, pool.Arrays());
        assert Owned() == owned[ch := pool.Arrays()];
      }
    }

    /** The bytes a chunk occupies: an array of the pool, and a range in it. */
    ghost function ArrayOf(ch: UInt16, c: Chunk): (a: array<Byte>)
      requires ch in pools && pools[ch].Valid() && Placed(pools[ch].View(), c)
      reads this, pools.Values
      ensures a in pools[ch].Arrays()
    {
      PlacedArray(ch, c);
      match c
      case InPage(p, _, _, _) => pools[ch].pages[p]
      case Large(i, _, _) => pools[ch].largeBlocks[i]
    }

    lemma PlacedArray(ch: UInt16, c: Chunk)
      requires ch in pools && pools[ch].Valid() && Placed(pools[ch].View(), c)
      ensures !c.Null?
      ensures c.InPage? ==> c.page < |pools[ch].pages| && pools[ch].Arrays()[c.page] == pools[ch].pages[c.page]
      ensures c.Large? ==>
                && c.index < |pools[ch].largeBlocks|
                && pools[ch].Arrays()[|pools[ch].pages| + c.index] == pools[ch].largeBlocks[c.index]
    {
    }

    /** Two chunks handed out in the current epochs of their pools share no byte that was asked for. */
    lemma ChunksShareNothing(ch: UInt16, i: nat, ch': UInt16, i': nat)
      requires Valid() && ch in pools && ch' in pools
      requires i < |pools[ch].epoch.live| && i' < |pools[ch'].epoch.live| && (ch != ch' || i != i')
      ensures var c, c' := pools[ch].epoch.live[i], pools[ch'].epoch.live[i'];
              && Placed(pools[ch].View(), c) && Placed(pools[ch'].View(), c')
              && (ArrayOf(ch, c) != ArrayOf(ch', c')
                  || (c.InPage? && c'.InPage? && (c.offset + c.amount <= c'.offset || c'.offset + c'.amount <= c.offset)))
    {
      hide Mapped, BelowMark;
      var c, c' := pools[ch].epoch.live[i], pools[ch'].epoch.live[i'];
      PlacedArray(ch, c);
      PlacedArray(ch', c');
      if ch == ch' {
        assert Disjoint(c, c') && Disjoint(c', c) by {
          if i < i' { assert Disjoint(c, c'); } else { assert Disjoint(c', c); }
        }
      } else {
        assert Separate(Owned()[ch], Owned()[ch']);
      }
    }
  }

  /** A channel's pool has handed out one more chunk; it is new if the channel had none. */
  function Grown(epochs: map<UInt16, Epoch>, ch: UInt16, chunk: Chunk): map<UInt16, Epoch>
  {
    var e := if ch in epochs then epochs[ch] else Epoch(0, []);
    epochs[ch := Epoch(e.generation, e.live + [chunk])]
  }
}
