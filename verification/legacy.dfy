/**
  The older allocator (memmgr.c): one free list, first-fit with a split,
  LIFO push on release, no coalescing.

  The C file keeps no record of the blocks it hands out; their headers live
  in the pool only.  `live` lists those headers, in the order they were
  handed out, so that Mem_free can read a header back and the footprint
  balance can be stated.  Nothing in the C code reads or writes it.
*/
module Legacy {
  import opened Header
  import opened BlockList
  import opened Fit
  import opened Layout
  import opened Wrappers

  /** The globals `free_list` and `pool_size`, the pool address, and the handed-out headers. */
  datatype LegacyPool = LegacyPool(base: nat, poolSize: nat, free: seq<Block>, live: seq<Block>)

  /**
    The pool invariant: free blocks have bit 0 clear, free and handed-out
    blocks occupy disjoint ranges of the pool with sizes that are multiples
    of 8, and their footprints add up to the pool size.
  */
  ghost predicate Valid(p: LegacyPool)
  {
    && AllFree(p.free)
    && Placed(multiset(p.free) + multiset(p.live), p.base, p.poolSize)
    && Sum(p.free) + Sum(p.live) == p.poolSize
  }

  /**
    InitMemPool(mem, size): the free list becomes one block at `mem` whose
    word is `size - BLOCK_HEADER_SIZE`, with no successor; `size` is
    returned.  No earlier allocation survives it.
  */
  function InitMemPool(mem: nat, size: nat): (r: (LegacyPool, nat))
    requires size >= H
    ensures r.1 == size && r.0.poolSize == size && r.0.live == []
    ensures |r.0.free| == 1 && r.0.free[0].addr == mem
    ensures CheckPool(r.0) == size
  {
    var pool := LegacyPool(mem, size, [Decode(mem, size - H)], []);
    assert pool.free[1..] == [];
    assert RawSum(pool.free) == Word(pool.free[0]) + H;
    (pool, size)
  }

  /**
    The pieces FindFit leaves of block `b` for a request of `req` bytes:
    when the word exceeds the request plus one header, the block is split
    and its first part marked; otherwise it is handed out whole, its word
    not touched.
  */
  function Pieces(b: Block, req: nat): (r: seq<Block>)
    ensures |r| == (if Word(b) > req + H then 2 else 1)
    ensures r[0].addr == b.addr
  {
    if Word(b) > req + H then
      var c := SplitAt(b, req);
      [c.taken, c.rest]
    else [b]
  }

  /** The split test of memmgr.c line 94 as the C evaluates it, with the wrapped MIN_BLOCK_SIZE. */
  predicate SplitsWord(b: Block, req: nat)
    requires req < SIZE_MODULUS
    ensures req + H < SIZE_MODULUS ==> (SplitsWord(b, req) <==> |Pieces(b, req)| == 2)
  {
    Word(b) > MinBlockSizeWord(req)
  }

  /**
    The wrap: for a request within one header of 2^64, the test as written
    splits every block whose word lies between the wrapped bound and the
    request, which Pieces hands out whole.
  */
  lemma SplitsWordWraps(b: Block, req: nat)
    requires SIZE_MODULUS - H <= req < SIZE_MODULUS
    requires req + H - SIZE_MODULUS < Word(b) < req
    ensures SplitsWord(b, req) && |Pieces(b, req)| == 1
  {
    assert MinBlockSizeWord(req) == req + H - SIZE_MODULUS;
  }

  /** The free list after FindFit, and the block it returns (None for NULL). */
  datatype Taken = Taken(free: seq<Block>, block: Option<Block>)

  /**
    FindFit(size): the first free block that fits is cut into pieces, the
    remainder, if any, linked after it, and the block itself unlinked.
  */
  function FindFit(free: seq<Block>, req: nat): (r: Taken)
    ensures r.block.None? <==> forall j :: 0 <= j < |free| ==> !Fits(free[j], req)
    ensures r.block.None? ==> r.free == free
  {
    match FirstFit(free, req)
    case None => Taken(free, None)
    case Some(i) =>
      var pieces := Pieces(free[i], req);
      var linked := free[..i] + pieces + free[i + 1..];
      Taken(RemoveFromList(linked, pieces[0].addr).list, Some(pieces[0]))
  }

  /** The pool after Mem_malloc, and the returned pointer (None for NULL). */
  datatype LegacyAlloc = LegacyAlloc(pool: LegacyPool, ptr: Option<nat>)

  /**
    Mem_malloc(size): FindFit on the aligned size; NULL when no free block
    fits, otherwise the payload address of the found block.
  */
  function MemMalloc(p: LegacyPool, n: nat): (r: LegacyAlloc)
    ensures r.ptr.None? <==> forall j :: 0 <= j < |p.free| ==> !Fits(p.free[j], Align(n))
    ensures r.ptr.None? ==> r.pool == p
    ensures r.ptr.Some? ==>
      && r.ptr.value >= H
      && |r.pool.live| == |p.live| + 1 && r.pool.live[..|p.live|] == p.live
      && PayloadAddr(r.pool.live[|p.live|]) == r.ptr.value
    ensures r.pool.base == p.base && r.pool.poolSize == p.poolSize
  {
    var f := FindFit(p.free, Align(n));
    match f.block
    case None => LegacyAlloc(p, None)
    case Some(b) =>
      assert (p.live + [b])[..|p.live|] == p.live;
      LegacyAlloc(p.(free := f.free, live := p.live + [b]), Some(PayloadAddr(b)))
  }

  /**
    Mem_free(mem): the header at `mem - BLOCK_HEADER_SIZE` gets bit 0
    cleared and is pushed on the head of the free list: no sorting, no
    merging.  The caller must pass a pointer Mem_malloc returned and that
    was not freed since.
  */
  function MemFree(p: LegacyPool, mem: nat): (r: LegacyPool)
    requires mem >= H && HasAddr(p.live, HeaderAddr(mem))
    ensures r.base == p.base && r.poolSize == p.poolSize
    ensures |r.free| == |p.free| + 1 && r.free[1..] == p.free
    ensures r.free[0].addr == HeaderAddr(mem) && !r.free[0].inUse
    ensures r.free[0] == Unmark(p.live[IndexOf(p.live, HeaderAddr(mem))])
    ensures var k := IndexOf(p.live, HeaderAddr(mem));
      r.live == p.live[..k] + p.live[k + 1..]
    ensures |r.live| == |p.live| - 1
  {
    var a := HeaderAddr(mem);
    var b := p.live[IndexOf(p.live, a)];
    RemoveIndexOf(p.live, a);
    assert ([Unmark(b)] + p.free)[1..] == p.free;
    p.(free := [Unmark(b)] + p.free, live := RemoveFromList(p.live, a).list)
  }

  /** CheckPool(): Σ (size word + header) over the free list, the total it prints next to the pool size. */
  function CheckPool(p: LegacyPool): (r: nat)
    ensures AllFree(p.free) ==> r == Sum(p.free)
  {
    RawSumFlags(p.free);
    RawSum(p.free)
  }

}
