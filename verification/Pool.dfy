/**
  The pool allocator (amqp_mem.c): blocks are carved out of equal pages in next-fit order, requests
  larger than a page get a block of their own, and recycling keeps the pages for reuse.
 */
module Pool {
  import opened Wire

  /** The bookkeeping: pages are named by their index in the page list, large blocks by theirs. */
  datatype State = State(pagesize: nat, pages: nat, large: nat, nextPage: nat, current: Option<nat>, used: nat)

  /** What an allocation returns: where it lies, the bytes it takes and the bytes that were asked for. */
  datatype Chunk =
    | Null
    | InPage(page: nat, offset: nat, size: nat, amount: nat)
    | Large(index: nat, size: nat, amount: nat)

  function RoundUp8(n: nat): (r: nat)
    ensures n <= r < n + 8 && r % 8 == 0
  {
    (n + 7) / 8 * 8
  }

  function Init(pagesize: nat): State
  {
    State(if pagesize != 0 then pagesize else 4096, 0, 0, 0, None, 0)
  }

  function Recycled(s: State): State
  {
    s.(large := 0, nextPage := 0, current := None, used := 0)
  }

  /** `amqp_pool_alloc`, system allocation succeeding. */
  function Allocated(s: State, amount: nat): (State, Chunk)
  {
    var size := RoundUp8(amount);
    if amount == 0 then (s, Null)
    else if size > s.pagesize then (s.(large := s.large + 1), Large(s.large, size, amount))
    else if s.current.Some? && s.used + size <= s.pagesize then
      (s.(used := s.used + size), InPage(s.current.value, s.used, size, amount))
    else if s.nextPage >= s.pages then
      (s.(pages := s.pages + 1, nextPage := s.pages + 1, current := Some(s.pages), used := size), InPage(s.pages, 0, size, amount))
    else
      (s.(nextPage := s.nextPage + 1, current := Some(s.nextPage), used := size), InPage(s.nextPage, 0, size, amount))
  }

  ghost predicate ValidState(s: State)
  {
    && s.pagesize > 0 && s.nextPage <= s.pages && s.used <= s.pagesize && s.used % 8 == 0
    && (s.current.None? <==> s.nextPage == 0)
    && (s.current.None? ==> s.used == 0)
    && (s.current.Some? ==> s.current.value == s.nextPage - 1)
  }

  // ----- Runs -----

  datatype Op = Alloc(amount: nat) | Recycle

  /** A run so far: the pool, the chunks handed out since the last recycle, and the most pages any epoch has used. */
  datatype Run = Run(pool: State, live: seq<Chunk>, peak: nat)

  /** Some chunk lies in page `p`. */
  predicate Uses(live: seq<Chunk>, p: nat)
  {
    exists i :: 0 <= i < |live| && live[i].InPage? && live[i].page == p
  }

  /** The number of different pages the chunks lie in. */
  function PageCount(live: seq<Chunk>): nat
  {
    if live == [] then 0
    else
      var front, c := live[..|live| - 1], live[|live| - 1];
      PageCount(front) + if c.InPage? && !Uses(front, c.page) then 1 else 0
  }

  function Max(a: nat, b: nat): nat
  {
    if a < b then b else a
  }

  function Next(r: Run, op: Op): Run
  {
    match op
    case Recycle => Run(Recycled(r.pool), [], r.peak)
    case Alloc(n) =>
      var (pool, c) := Allocated(r.pool, n);
      var live := if c.Null? then r.live else r.live + [c];
      Run(pool, live, Max(r.peak, PageCount(live)))
  }

  function After(pagesize: nat, ops: seq<Op>): Run
  {
    if ops == [] then Run(Init(pagesize), [], 0) else Next(After(pagesize, ops[..|ops| - 1]), ops[|ops| - 1])
  }

  predicate Disjoint(a: Chunk, b: Chunk)
  {
    match (a, b)
    case (InPage(p, o, n, _), InPage(q, o', n', _)) => p != q || o + n <= o' || o' + n' <= o
    case (Large(i, _, _), Large(j, _, _)) => i != j
    case _ => true
  }

  /** 8-aligned and inside one recorded page, or a recorded large block of its own, with room for what was asked for. */
  predicate Placed(s: State, c: Chunk)
  {
    match c
    case Null => false
    case InPage(p, o, n, a) => p < s.nextPage && 0 < a <= n < a + 8 && n % 8 == 0 && o % 8 == 0 && o + n <= s.pagesize
    case Large(i, n, a) => i < s.large && a <= n < a + 8 && n % 8 == 0 && n > s.pagesize
  }

  /** Chunks of the current page end at the fill mark. */
  predicate BelowMark(s: State, c: Chunk)
  {
    c.InPage? && s.current == Some(c.page) ==> c.offset + c.size <= s.used
  }

  /** Every chunk lies where it should, and behind the fill mark there is none. */
  ghost predicate AllPlaced(s: State, live: seq<Chunk>)
  {
    forall i :: 0 <= i < |live| ==> Placed(s, live[i]) && BelowMark(s, live[i])
  }

  ghost predicate AllDisjoint(live: seq<Chunk>)
  {
    forall i, j :: 0 <= i < j < |live| ==> Disjoint(live[i], live[j])
  }

  /** The pages the chunks lie in are the first `n`. */
  ghost predicate PagesUsed(live: seq<Chunk>, n: nat)
  {
    PageCount(live) == n && forall p: nat :: Uses(live, p) <==> p < n
  }

  ghost predicate Sound(r: Run)
  {
    && ValidState(r.pool) && AllPlaced(r.pool, r.live) && AllDisjoint(r.live)
    && PagesUsed(r.live, r.pool.nextPage) && r.pool.pages == r.peak
  }

  /** An allocation yields a well-placed chunk and keeps the bookkeeping valid. */
  lemma NewChunk(s: State, n: nat)
    requires ValidState(s)
    ensures var (pool, c) := Allocated(s, n);
            && ValidState(pool) && (n == 0 <==> c.Null?)
            && (n > 0 ==> Placed(pool, c) && BelowMark(pool, c) && c.amount == n <= c.size < n + 8)
            && (c.InPage? && c.page < s.nextPage ==> pool.nextPage == s.nextPage && pool.pages == s.pages)
            && (c.InPage? && c.page >= s.nextPage ==>
                  c.page == s.nextPage && pool.nextPage == s.nextPage + 1 && pool.pages == Max(s.pages, pool.nextPage))
            && (!c.InPage? ==> pool.nextPage == s.nextPage && pool.pages == s.pages)
  {
    hide RoundUp8;
    AlignedSum(s.used, RoundUp8(n));
  }

  lemma AlignedSum(a: nat, b: nat)
    requires a % 8 == 0 && b % 8 == 0
    ensures (a + b) % 8 == 0
  {
  }

  /** It leaves an older chunk where it is and does not overlap it. */
  lemma OldChunk(s: State, n: nat, d: Chunk)
    requires ValidState(s) && Placed(s, d) && BelowMark(s, d)
    ensures var (pool, c) := Allocated(s, n);
            Placed(pool, d) && BelowMark(pool, d) && Disjoint(d, c)
  {
  }

  lemma PlacedStill(s: State, live: seq<Chunk>, n: nat)
    requires ValidState(s) && AllPlaced(s, live) && AllDisjoint(live) && n > 0
    ensures var (pool, c) := Allocated(s, n); AllPlaced(pool, live + [c]) && AllDisjoint(live + [c])
  {
    hide Allocated, Placed, BelowMark, Disjoint, ValidState;
    NewChunk(s, n);
    forall i | 0 <= i < |live|
      ensures var (pool, c) := Allocated(s, n);
              Placed(pool, live[i]) && BelowMark(pool, live[i]) && Disjoint(live[i], c)
    {
      OldChunk(s, n, live[i]);
    }
  }

  lemma PagesStill(s: State, live: seq<Chunk>, n: nat)
    requires ValidState(s) && PagesUsed(live, s.nextPage) && n > 0
    ensures var (pool, c) := Allocated(s, n);
            && PagesUsed(live + [c], pool.nextPage)
            && pool.pages == Max(s.pages, PageCount(live + [c]))
  {
    hide Allocated, Placed, BelowMark, PageCount, Uses;
    NewChunk(s, n);
    PagesGrow(live, Allocated(s, n).1);
  }

  /** The most pages any epoch has used are no fewer than this one uses, and what the pool holds. */
  lemma RecycleIsSound(r: Run)
    requires Sound(r)
    ensures Sound(Next(r, Recycle))
  {
    hide Sound, PageCount, Uses;
    SoundParts(r);
    NoPages();
  }

  lemma SoundParts(r: Run)
    ensures Sound(r) <==>
            && ValidState(r.pool) && AllPlaced(r.pool, r.live) && AllDisjoint(r.live)
            && PagesUsed(r.live, r.pool.nextPage) && r.pool.pages == r.peak
    ensures Sound(Next(r, Recycle)) <==>
            && ValidState(Recycled(r.pool)) && AllPlaced(Recycled(r.pool), []) && AllDisjoint([])
            && PagesUsed([], 0) && r.pool.pages == r.peak
  {
  }

  lemma NoPages()
    ensures PagesUsed([], 0)
  {
  }

  lemma NextIsSound(r: Run, op: Op)
    requires Sound(r)
    ensures Sound(Next(r, op))
  {
    match op
    case Recycle => RecycleIsSound(r);
    case Alloc(n) =>
      hide Allocated, ValidState, AllPlaced, AllDisjoint, PagesUsed, PageCount;
      NewChunk(r.pool, n);
      if n == 0 {
        NothingAllocated(r.pool);
        PeakCovers(r);
      } else {
        PlacedStill(r.pool, r.live, n);
        PagesStill(r.pool, r.live, n);
      }
  }

  lemma PeakCovers(r: Run)
    requires Sound(r)
    ensures Max(r.peak, PageCount(r.live)) == r.peak
  {
  }

  lemma NothingAllocated(s: State)
    ensures Allocated(s, 0) == (s, Null)
  {
  }

  lemma PagesGrow(live: seq<Chunk>, c: Chunk)
    ensures PageCount(live + [c]) == PageCount(live) + if c.InPage? && !Uses(live, c.page) then 1 else 0
    ensures forall p: nat :: Uses(live + [c], p) <==> Uses(live, p) || (c.InPage? && c.page == p)
  {
    var all := live + [c];
    assert all[..|all| - 1] == live;
    forall p: nat
      ensures Uses(all, p) <==> Uses(live, p) || (c.InPage? && c.page == p)
    {
      if Uses(live, p) {
        var i :| 0 <= i < |live| && live[i].InPage? && live[i].page == p;
        assert all[i] == live[i];
      }
      assert all[|live|] == c;
    }
  }

  /** The requests since the last recycle, without those for nothing. */
  function Requests(ops: seq<Op>): seq<nat>
  {
    if ops == [] then []
    else
      match ops[|ops| - 1]
      case Recycle => []
      case Alloc(n) => Requests(ops[..|ops| - 1]) + if n == 0 then [] else [n]
  }

  /** The bytes asked for do not overlap. */
  predicate RequestsApart(a: Chunk, b: Chunk)
  {
    a.InPage? && b.InPage? && a.page == b.page ==> a.offset + a.amount <= b.offset || b.offset + b.amount <= a.offset
  }

  /** There is one chunk for each request, of the amount asked for. */
  ghost predicate Serves(live: seq<Chunk>, requests: seq<nat>)
  {
    |live| == |requests| && forall i :: 0 <= i < |live| ==> !live[i].Null? && live[i].amount == requests[i]
  }

  /**
    Allocator safety: after every run of allocations and recycles there is one block for each request since
    the last recycle, with room for the bytes asked for; the blocks are 8-aligned, each inside one recorded page
    or its own large block, and pairwise disjoint; and the pool holds exactly as many pages as the most
    demanding epoch has used.
   */
  lemma {:induction false} PoolIsSafe(pagesize: nat, ops: seq<Op>)
    ensures var r := After(pagesize, ops);
            && Serves(r.live, Requests(ops))
            && (forall i :: 0 <= i < |r.live| ==> Placed(r.pool, r.live[i]))
            && (forall i, j :: 0 <= i < j < |r.live| ==> Disjoint(r.live[i], r.live[j]) && RequestsApart(r.live[i], r.live[j]))
            && r.pool.pages == r.peak
            && Sound(r)
    decreases |ops|
  {
    hide Next;
    if ops != [] {
      var front, op := ops[..|ops| - 1], ops[|ops| - 1];
      PoolIsSafe(pagesize, front);
      NextIsSound(After(pagesize, front), op);
      NextServes(After(pagesize, front), Requests(front), op);
    }
  }

  lemma NextServes(r: Run, requests: seq<nat>, op: Op)
    requires Sound(r) && Serves(r.live, requests)
    ensures Serves(Next(r, op).live, if op.Recycle? then [] else requests + if op.amount == 0 then [] else [op.amount])
  {
    hide Placed, BelowMark, Disjoint, PageCount, Uses, Allocated;
    match op
    case Recycle =>
    case Alloc(n) => NewChunk(r.pool, n);
  }

  // ----- How well next-fit fills pages -----

  /** The bytes requested from pages since the last recycle. */
  function Demand(live: seq<Chunk>): nat
  {
    if live == [] then 0
    else
      var c := live[|live| - 1];
      Demand(live[..|live| - 1]) + if c.InPage? then c.size else 0
  }

  ghost predicate WellFilled(r: Run)
  {
    r.pool.nextPage > 0 ==> (r.pool.nextPage - 1) * r.pool.pagesize + r.pool.used < 2 * Demand(r.live) && r.pool.used > 0
  }

  lemma NextIsWellFilled(r: Run, op: Op)
    requires ValidState(r.pool) && WellFilled(r)
    ensures WellFilled(Next(r, op))
  {
    match op
    case Recycle =>
    case Alloc(n) =>
      hide PageCount, RoundUp8;
      var s := r.pool;
      var (pool, c) := Allocated(s, n);
      if !c.Null? {
        var live := r.live + [c];
        assert live[..|live| - 1] == r.live;
        if c.InPage? && pool.nextPage == s.nextPage + 1 && s.nextPage > 0 {
          // a new page was opened because the request did not fit behind the fill mark
          assert s.used + c.size > s.pagesize;
          assert s.nextPage * s.pagesize == (s.nextPage - 1) * s.pagesize + s.pagesize;
        }
      }
  }

  /**
    Next-fit bound: if an epoch's page requests, each rounded up to 8 bytes, total `B` bytes over
    `k >= 1` pages, then `(k - 1) * pagesize < 2 * B`.
   */
  lemma {:induction false} NextFitBound(pagesize: nat, ops: seq<Op>)
    ensures var r := After(pagesize, ops);
            var k := PageCount(r.live);
            && WellFilled(r)
            && (k >= 1 ==> (k - 1) * r.pool.pagesize < 2 * Demand(r.live))
    decreases |ops|
  {
    hide Sound, WellFilled, PageCount, Demand, Next;
    PoolIsSafe(pagesize, ops);
    if ops != [] {
      var before := After(pagesize, ops[..|ops| - 1]);
      NextFitBound(pagesize, ops[..|ops| - 1]);
      PoolIsSafe(pagesize, ops[..|ops| - 1]);
      SoundState(before);
      NextIsWellFilled(before, ops[|ops| - 1]);
    } else {
      assert WellFilled(After(pagesize, ops)) by { StartIsWellFilled(pagesize); }
    }
    FilledPages(After(pagesize, ops));
  }

  lemma SoundState(r: Run)
    requires Sound(r)
    ensures ValidState(r.pool) && PageCount(r.live) == r.pool.nextPage
  {
  }

  lemma StartIsWellFilled(pagesize: nat)
    ensures WellFilled(After(pagesize, []))
  {
  }

  lemma FilledPages(r: Run)
    requires Sound(r) && WellFilled(r)
    ensures var k := PageCount(r.live); k >= 1 ==> (k - 1) * r.pool.pagesize < 2 * Demand(r.live)
  {
    hide Sound, PageCount, Demand;
    SoundState(r);
  }

  // ----- The allocator in place -----

  /** How often a pool was recycled, and the chunks it has handed out since, in order. */
  datatype Epoch = Epoch(generation: nat, live: seq<Chunk>)

  class AmqpPool {
    const pagesize: nat
    var pages: seq<array<Byte>>
    var largeBlocks: seq<array<Byte>>
    var nextPage: nat
    var allocBlock: array?<Byte>
    var allocUsed: nat
    ghost var epoch: Epoch

    /** The fields fit together, and the chunks handed out in this epoch are in place and do not overlap. */
    ghost predicate Valid()
      reads this
    {
      Shape() && AllPlaced(View(), epoch.live) && AllDisjoint(epoch.live)
    }

    ghost predicate Shape()
      reads this`pages, this`largeBlocks, this`nextPage, this`allocBlock, this`allocUsed
    {
      && pagesize > 0 && nextPage <= |pages| && allocUsed <= pagesize && allocUsed % 8 == 0
      && (forall i :: 0 <= i < |pages| ==> pages[i].Length == pagesize)
      && (forall i, j :: 0 <= i < j < |pages| ==> pages[i] != pages[j])
      && (forall i :: 0 <= i < |largeBlocks| ==> largeBlocks[i].Length > pagesize)
      && (forall i, j :: 0 <= i < j < |largeBlocks| ==> largeBlocks[i] != largeBlocks[j])
      && (allocBlock == null <==> nextPage == 0)
      && (allocBlock == null ==> allocUsed == 0)
      && (allocBlock != null ==> allocBlock == pages[nextPage - 1])
    }

    ghost function View(): State
      reads this`pages, this`largeBlocks, this`nextPage, this`allocUsed
    {
      State(pagesize, |pages|, |largeBlocks|, nextPage, if nextPage == 0 then None else Some(nextPage - 1), allocUsed)
    }

    constructor (pagesize: nat)
      ensures Valid() && View() == Init(pagesize) && epoch == Epoch(0, []) && Arrays() == []
    {
      epoch := Epoch(0, []);
      this.pagesize := if pagesize != 0 then pagesize else 4096;
      pages, largeBlocks := [], [];
      nextPage, allocBlock, allocUsed := 0, null, 0;
    }

    /** `recycle_amqp_pool` */
    method Recycle()
      requires Valid()
      modifies this
      ensures Valid() && View() == Recycled(old(View())) && pages == old(pages) && Arrays() <= old(Arrays())
      ensures epoch == Epoch(old(epoch).generation + 1, [])
    {
      epoch := Epoch(epoch.generation + 1, []);
      largeBlocks := [];
      nextPage, allocBlock, allocUsed := 0, null, 0;
    }

    /** `empty_amqp_pool` */
    method Empty()
      requires Valid()
      modifies this
      ensures Valid() && View() == Init(pagesize)
    {
      Recycle();
      pages := [];
    }

    /** The arrays the pool owns. */
    ghost function Arrays(): seq<array<Byte>>
      reads this`pages, this`largeBlocks
    {
      pages + largeBlocks
    }

    /** The block a chunk names, as the bookkeeping records it. */
    ghost predicate IsAt(c: Chunk, block: array?<Byte>, offset: nat)
      reads this`pages, this`largeBlocks
    {
      match c
      case Null => block == null
      case InPage(p, o, _, _) => p < |pages| && block == pages[p] && offset == o
      case Large(i, n, _) => i < |largeBlocks| && block == largeBlocks[i] && offset == 0 && block.Length == n
    }

    /** `amqp_pool_alloc`; a new chunk joins those of the epoch, and none of them moves. */
    method Alloc(amount: nat) returns (block: array?<Byte>, offset: nat)
      requires Valid()
      modifies this
      ensures Valid()
      ensures View() == Allocated(old(View()), amount).0
      ensures IsAt(Allocated(old(View()), amount).1, block, offset)
      ensures old(pages) <= pages && old(largeBlocks) <= largeBlocks
      ensures forall i :: 0 <= i < |Arrays()| ==> Arrays()[i] in old(Arrays()) || fresh(Arrays()[i])
      ensures epoch == if amount == 0 then old(epoch)
                       else Epoch(old(epoch).generation, old(epoch).live + [Allocated(old(View()), amount).1])
      ensures amount > 0 ==> !Allocated(old(View()), amount).1.Null? && Allocated(old(View()), amount).1.amount == amount
      ensures if amount == 0 then block == null else block != null && offset % 8 == 0 && offset + amount <= block.Length
    {
      hide Shape, AllPlaced, AllDisjoint, IsAt, Allocated;
      ghost var s, live := View(), epoch.live;
      ShapeIsValid();
      block, offset := Carve(amount);
      NewChunk(s, amount);
      if amount == 0 {
        NothingAllocated(s);
        NoBlock(block, offset);
      } else {
        PlacedStill(s, live, amount);
        BlockHasRoom(s, Allocated(s, amount).1, block, offset);
        epoch := Epoch(epoch.generation, live + [Allocated(s, amount).1]);
      }
    }

    lemma NoBlock(block: array?<Byte>, offset: nat)
      ensures IsAt(Null, block, offset) ==> block == null
    {
    }

    lemma BlockHasRoom(before: State, c: Chunk, block: array?<Byte>, offset: nat)
      requires Shape() && IsAt(c, block, offset) && Placed(View(), c)
      ensures block != null && offset % 8 == 0 && offset + c.amount <= block.Length
    {
    }

    lemma ShapeIsValid()
      requires Shape()
      ensures ValidState(View())
    {
    }

    /** The allocation itself. */
    method Carve(amount: nat) returns (block: array?<Byte>, offset: nat)
      requires Shape()
      modifies this`pages, this`largeBlocks, this`nextPage, this`allocBlock, this`allocUsed
      ensures Shape()
      ensures View() == Allocated(old(View()), amount).0
      ensures IsAt(Allocated(old(View()), amount).1, block, offset)
      ensures old(pages) <= pages && old(largeBlocks) <= largeBlocks
      ensures forall i :: 0 <= i < |Arrays()| ==> Arrays()[i] in old(Arrays()) || fresh(Arrays()[i])
    {
      block, offset := null, 0;
      if amount == 0 {
        return;
      }
      hide RoundUp8;
      var size := RoundUp8(amount);
      AlignedSum(allocUsed, size);
      if size > pagesize {
        block := new Byte[size](_ => 0);
        largeBlocks := largeBlocks + [block];
        return;
      }
      if allocBlock != null {
        if allocUsed + size <= pagesize {
          block, offset := allocBlock, allocUsed;
          allocUsed := allocUsed + size;
          return;
        }
      }
      block := TurnPage(size);
    }

    /** The next page, or a new one, with the first chunk on it. */
    method TurnPage(size: nat) returns (block: array<Byte>)
      requires Shape() && size <= pagesize && size % 8 == 0
      modifies this`pages, this`nextPage, this`allocBlock, this`allocUsed
      ensures Shape() && allocUsed == size && nextPage == old(nextPage) + 1 && block == pages[nextPage - 1]
      ensures old(pages) <= pages && |pages| == if old(nextPage) == |old(pages)| then |old(pages)| + 1 else |old(pages)|
      ensures forall i :: 0 <= i < |pages| ==> pages[i] in old(pages) || fresh(pages[i])
    {
      if nextPage >= |pages| {
        var page := new Byte[pagesize](_ => 0);
        pages := pages + [page];
        allocBlock := page;
        nextPage := |pages|;
      } else {
        allocBlock := pages[nextPage];
        nextPage := nextPage + 1;
      }
      allocUsed := size;
      block := allocBlock;
    }
  }
}
