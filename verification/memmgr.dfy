/**
  The newer allocator (memmgr/memmgr.c).  The pool is carved into blocks
  that sit on three address-sorted lists: `heap` (never handed out, or put
  back there from the free list), `free` (returned by MemFree, waiting to be
  coalesced) and `alloc` (handed out).  The four globals of the C file are
  the fields of `Pool`; `base` is the address MemInitPool was given.
*/
module Memmgr {
  import opened Header
  import opened BlockList
  import opened Fit
  import opened Layout
  import opened Coalesce
  import opened Wrappers

  /** The allocator's globals: pool address and size, and the three lists. */
  datatype Pool = Pool(base: nat, poolSize: nat, heap: seq<Block>, free: seq<Block>, alloc: seq<Block>)

  /** The globals as the C file initialises them: NULL lists and a zero pool size. */
  const Unset: Pool := Pool(0, 0, [], [], [])

  /** All blocks of the three lists. */
  function Blocks(p: Pool): multiset<Block>
  {
    multiset(p.heap) + multiset(p.free) + multiset(p.alloc)
  }

  /**
    The pool invariant: each list is sorted by address, heap and free blocks
    have bit 0 clear and allocated ones have it set, the blocks of all lists
    occupy disjoint ranges of the pool with sizes that are multiples of 8,
    and their footprints add up to the pool size, so no byte is lost.
  */
  ghost predicate Valid(p: Pool)
  {
    && StrictlySorted(p.heap) && StrictlySorted(p.free) && StrictlySorted(p.alloc)
    && AllFree(p.heap) && AllFree(p.free) && AllInUse(p.alloc)
    && Placed(Blocks(p), p.base, p.poolSize)
    && Sum(p.heap) + Sum(p.free) + Sum(p.alloc) == p.poolSize
  }

  /**
    MemInitPool(mem, size): the whole pool becomes one heap block whose word
    is `size - BLOCK_HEADER_SIZE`; the free and alloc lists are not touched.
  */
  function MemInitPool(p: Pool, mem: nat, size: nat): (r: (Pool, nat))
    requires size >= H
    ensures r.1 == size
    ensures r.0.base == mem && r.0.poolSize == size
    ensures |r.0.heap| == 1 && r.0.heap[0].addr == mem && Footprint(r.0.heap[0]) == size - size % 2
    ensures r.0.heap == [Decode(mem, size - H)]
    ensures r.0.free == p.free && r.0.alloc == p.alloc
    ensures MemGetTotalMemFree(r.0) == RawSum(p.free) + size
    ensures size % ALIGNMENT == 0 && p.free == [] && p.alloc == [] ==> Valid(r.0)
  {
    var pool := Pool(mem, size, [Decode(mem, size - H)], p.free, p.alloc);
    assert pool.heap[1..] == [];
    assert RawSum(pool.heap) == Word(pool.heap[0]) + H;
    InitValid(pool);
    (pool, size)
  }

  /** A pool that is one heap block of the whole size, with empty free and alloc lists, is valid. */
  lemma InitValid(p: Pool)
    requires p.poolSize >= H
    requires p.heap == [Decode(p.base, p.poolSize - H)]
    ensures p.poolSize % ALIGNMENT == 0 && p.free == [] && p.alloc == [] ==> Valid(p)
  {
    if p.poolSize % ALIGNMENT == 0 && p.free == [] && p.alloc == [] {
      var b := p.heap[0];
      assert Blocks(p) == multiset{b};
      assert p.heap[1..] == [];
    }
  }

  /**
    MemDeInitPool() without MEM_DEBUG: the three lists are reset, pool_size
    keeps its value, and 0 is returned.
  */
  function MemDeInitPool(p: Pool): (r: (Pool, nat))
    ensures r.1 == 0 && r.0.poolSize == p.poolSize
    ensures MemGetTotalFreeCount(r.0) == 0 && MemGetTotalAllocCount(r.0) == 0 && MemGetTotalMemFree(r.0) == 0
  {
    (p.(heap := [], free := [], alloc := []), 0)
  }

  /**
    Lines 124-133 of FindFit: when the heap is empty or its head's word is
    below the request, the heap is refilled from the free list.
  */
  function Refill(p: Pool, req: nat): (r: Pool)
    ensures r.base == p.base && r.poolSize == p.poolSize && r.alloc == p.alloc
    ensures !(|p.heap| == 0 || Word(p.heap[0]) < req) ==> r == p
  {
    if |p.heap| == 0 || Word(p.heap[0]) < req then Reclaim(p) else p
  }

  /**
    Lines 127-132 of FindFit: the free list is coalesced, and the block the
    pass returns (when the list was not empty) moves into the heap.
  */
  function Reclaim(p: Pool): (r: Pool)
    ensures r.base == p.base && r.poolSize == p.poolSize && r.alloc == p.alloc
    ensures |p.free| == 0 ==> r == p
  {
    var c := MemCoalesceBlocks(p.free);
    match c.best
    case None => p.(free := c.list)
    case Some(b) =>
      p.(free := RemoveFromList(c.list, b.addr).list, heap := InsertToList(p.heap, b).list)
  }

  /**
    Lines 147-157 of FindFit: a block with more than the request plus two
    headers is split and its first part marked; a smaller one is marked
    whole.  The result is the list the block's place becomes, handed-out
    part first.
  */
  function Carve(b: Block, req: nat): (r: seq<Block>)
    ensures |r| == (if Word(b) > req + 2 * H then 2 else 1)
    ensures r[0].addr == b.addr && r[0].inUse
  {
    if Word(b) > req + 2 * H then
      var c := SplitAt(b, req);
      [c.taken, c.rest]
    else [Mark(b)]
  }

  /**
    The split test of line 147 as the C evaluates it on a 64-bit size_t:
    `MIN_BLOCK_SIZE(req) + BLOCK_HEADER_SIZE` wraps for the requests within
    two headers of 2^64.
  */
  predicate SplitsWord(b: Block, req: nat)
    requires req < SIZE_MODULUS
    ensures req + 2 * H < SIZE_MODULUS ==> (SplitsWord(b, req) <==> |Carve(b, req)| == 2)
  {
    Word(b) > (MinBlockSizeWord(req) + H) % SIZE_MODULUS
  }

  /**
    The wrap: for a request within two headers of 2^64, the test as written
    splits every block whose word lies between the wrapped bound and the
    request, which Carve hands out whole.
  */
  lemma SplitsWordWraps(b: Block, req: nat)
    requires SIZE_MODULUS - 2 * H <= req < SIZE_MODULUS
    requires req + 2 * H - SIZE_MODULUS < Word(b) < req
    ensures SplitsWord(b, req) && |Carve(b, req)| == 1
  {
    assert (MinBlockSizeWord(req) + H) % SIZE_MODULUS == req + 2 * H - SIZE_MODULUS;
  }

  /** The pool after FindFit, and the block it returns (None for NULL). */
  datatype Found = Found(pool: Pool, block: Option<Block>)

  /**
    FindFit(size): refill the heap if need be, take the first heap block
    that fits, carve it, and unlink the handed-out part from the heap.
  */
  function FindFit(p: Pool, req: nat): (r: Found)
    ensures r.pool.base == p.base && r.pool.poolSize == p.poolSize && r.pool.alloc == p.alloc
    ensures r.block.Some? ==> r.block.value.inUse
  {
    var q := Refill(p, req);
    match FirstFit(q.heap, req)
    case None => Found(q, None)
    case Some(i) =>
      var pieces := Carve(q.heap[i], req);
      var linked := q.heap[..i] + pieces + q.heap[i + 1..];
      Found(q.(heap := RemoveFromList(linked, pieces[0].addr).list), Some(pieces[0]))
  }

  /** The pool after MemAlloc, and the returned pointer (None for NULL). */
  datatype Alloc = Alloc(pool: Pool, ptr: Option<nat>)

  /** MemAlloc(size): FindFit on the aligned size; a found block goes on the alloc list and its payload is returned. */
  function MemAlloc(p: Pool, n: nat): (r: Alloc)
    ensures r.pool.base == p.base && r.pool.poolSize == p.poolSize
    ensures r.ptr.Some? ==> r.ptr.value >= H
    ensures r.ptr.None? ==> r.pool.alloc == p.alloc
  {
    var f := FindFit(p, Align(n));
    match f.block
    case None => Alloc(f.pool, None)
    case Some(b) => Alloc(f.pool.(alloc := InsertToList(f.pool.alloc, b).list), Some(PayloadAddr(b)))
  }

  /**
    MemFree(mem): the header before `mem` gets bit 0 cleared, leaves the
    alloc list and joins the free list.  The caller must pass a pointer
    MemAlloc returned and that was not freed since.
  */
  function MemFree(p: Pool, mem: nat): (r: Pool)
    requires mem >= H && HasAddr(p.alloc, HeaderAddr(mem))
    ensures r.base == p.base && r.poolSize == p.poolSize && r.heap == p.heap
  {
    var a := HeaderAddr(mem);
    var b := Unmark(p.alloc[IndexOf(p.alloc, a)]);
    p.(alloc := RemoveFromList(p.alloc, a).list, free := InsertToList(p.free, b).list)
  }

  /** MemGetTotalMemAlloc(): Σ (size word + header) over the alloc list, flag bits included. */
  function MemGetTotalMemAlloc(p: Pool): (r: nat)
    ensures AllInUse(p.alloc) ==> r == Sum(p.alloc) + |p.alloc|
  {
    RawSumFlags(p.alloc);
    RawSum(p.alloc)
  }

  /** MemGetTotalMemFree(): Σ (size word + header) over the free list and the heap. */
  function MemGetTotalMemFree(p: Pool): (r: nat)
    ensures AllFree(p.free) && AllFree(p.heap) ==> r == Sum(p.free) + Sum(p.heap)
  {
    RawSumFlags(p.free);
    RawSumFlags(p.heap);
    RawSum(p.free) + RawSum(p.heap)
  }

  /** MemGetTotalFreeCount(): length of the free list. */
  function MemGetTotalFreeCount(p: Pool): (r: nat)
    ensures r == 0 <==> p.free == []
    ensures H * r <= Sum(p.free)
  {
    |p.free|
  }

  /** MemGetTotalAllocCount(): length of the alloc list. */
  function MemGetTotalAllocCount(p: Pool): (r: nat)
    ensures r == 0 <==> p.alloc == []
    ensures H * r <= Sum(p.alloc)
  {
    |p.alloc|
  }

  /** The drain loop of MemDeInitPool: each free-list head is unlinked and inserted into the heap. */
  function Drain(free: seq<Block>, heap: seq<Block>): (r: seq<Block>)
    ensures multiset(heap) <= multiset(r)
    ensures |r| <= |heap| + |free|
    decreases |free|
  {
    if |free| == 0 then heap
    else
      assert RemoveFromList(free, free[0].addr).list == free[1..];
      Drain(free[1..], InsertToList(heap, free[0]).list)
  }

  /**
    The MEM_DEBUG check of MemDeInitPool: after coalescing the free list and
    draining it into the heap, the free total must equal the pool size.
  */
  function DeInitCheck(p: Pool): (ok: bool)
    ensures p.free == [] ==> (ok <==> RawSum(p.heap) == p.poolSize)
  {
    var heap := Drain(MemCoalesceBlocks(p.free).list, p.heap);
    MemGetTotalMemFree(p.(free := [], heap := heap)) == p.poolSize
  }

}
