/**
  Properties of the older allocator (memmgr.c): InitMemPool sets up the
  invariant and Mem_malloc and Mem_free keep it; the split and the
  first-fit choice; the footprint balance CheckPool reports; the
  malloc/free round trip and LIFO reuse.
*/
module LegacyProofs {
  import opened Header
  import opened BlockList
  import opened Fit
  import opened Layout
  import opened Wrappers
  import opened Legacy

  /** InitMemPool on an aligned size gives a valid pool: one free block spanning it. */
  lemma InitValid(mem: nat, size: nat)
    requires size >= H && size % ALIGNMENT == 0
    ensures Valid(InitMemPool(mem, size).0)
  {
    var p := InitMemPool(mem, size).0;
    var b := p.free[0];
    assert p.free == [b];
    assert multiset(p.free) + multiset(p.live) == multiset{b};
    assert p.free[1..] == [];
  }

  /**
    What FindFit makes of a fitting free block.  A block whose word
    exceeds the request plus one header is split: the first part keeps
    exactly the request and gets bit 0 set, the remainder header sits
    right after it with the rest less one header and bit 0 clear.  Any
    other fitting block is handed out as it is, bit 0 still clear.  Either
    way the pieces lie inside the block and their footprints add up to its
    footprint.
  */
  lemma PiecesFacts(b: Block, req: nat)
    requires !b.inUse && b.size % ALIGNMENT == 0 && req % ALIGNMENT == 0 && Fits(b, req)
    ensures var r := Pieces(b, req);
      && r[0].size >= req && r[0].addr == b.addr
      && AllFree(r[1..])
      && NonOverlapping(multiset(r))
      && (forall y :: y in multiset(r) ==> Covered(y, b) && y.size % ALIGNMENT == 0)
      && Footprint(r[0]) + Sum(r[1..]) == Footprint(b)
      && (|r| == 1 ==> r[0] == b)
      && (|r| == 2 ==> r[0] == Block(b.addr, req, true) && r[1] == Block(b.addr + H + req, b.size - req - H, false))
  {
    var r := Pieces(b, req);
    if |r| == 2 {
      var c := SplitAt(b, req);
      assert r == [c.taken, c.rest];
      assert r[1..] == [c.rest];
      assert multiset(r) == multiset{c.taken, c.rest};
      assert Sum(r[1..]) == Footprint(c.rest);
    } else {
      assert r[1..] == [];
      assert multiset(r) == multiset{b};
    }
  }

  /**
    FindFit on a list without repeated addresses: the block found is the
    first piece of the first fitting block, and the remainder, if any,
    takes that block's place; the other blocks keep their order.
  */
  lemma FindFitShape(free: seq<Block>, req: nat, i: nat)
    requires UniqueAddrs(free) && FirstFit(free, req) == Some(i)
    ensures var pieces := Pieces(free[i], req);
      FindFit(free, req) == Taken(free[..i] + pieces[1..] + free[i + 1..], Some(pieces[0]))
  {
    UnlinkFirst(free, i, Pieces(free[i], req));
  }

  /** Mem_malloc in terms of the block first-fit picks. */
  lemma MallocTakes(p: LegacyPool, n: nat, i: nat)
    requires UniqueAddrs(p.free) && FirstFit(p.free, Align(n)) == Some(i)
    ensures var pieces := Pieces(p.free[i], Align(n));
      MemMalloc(p, n) == LegacyAlloc(
        p.(free := p.free[..i] + pieces[1..] + p.free[i + 1..], live := p.live + [pieces[0]]),
        Some(PayloadAddr(pieces[0])))
  {
    FindFitShape(p.free, Align(n), i);
  }

  /** The free blocks of a valid pool have distinct addresses. */
  lemma FreeUnique(p: LegacyPool)
    requires Valid(p)
    ensures UniqueAddrs(p.free)
  {
    ListUnique(multiset(p.free) + multiset(p.live), p.base, p.poolSize, p.free);
  }

  /** A free block of a valid pool is flag-clear and aligned. */
  lemma FreeBlock(p: LegacyPool, i: nat)
    requires Valid(p) && i < |p.free|
    ensures !p.free[i].inUse && p.free[i].size % ALIGNMENT == 0
  {
    assert p.free[i] in multiset(p.free);
  }

  /**
    Taking free block `i` for a request: the pool with the remainder in the
    block's place and the first piece handed out is valid, and the free
    list loses exactly the first piece's footprint.
  */
  lemma TakeValid(p: LegacyPool, req: nat, i: nat)
    requires Valid(p) && req % ALIGNMENT == 0 && i < |p.free| && Fits(p.free[i], req)
    ensures var pieces := Pieces(p.free[i], req);
      var free' := p.free[..i] + pieces[1..] + p.free[i + 1..];
      && Valid(p.(free := free', live := p.live + [pieces[0]]))
      && Sum(free') + Footprint(pieces[0]) == Sum(p.free)
      && pieces[0].size >= req
  {
    FreeBlock(p, i);
    PiecesFacts(p.free[i], req);
    TakeSum(p, req, i);
    TakePlaced(p, req, i);
  }

  lemma TakeSum(p: LegacyPool, req: nat, i: nat)
    requires i < |p.free| && Fits(p.free[i], req) && req % ALIGNMENT == 0
    requires !p.free[i].inUse && p.free[i].size % ALIGNMENT == 0
    ensures var pieces := Pieces(p.free[i], req);
      var free' := p.free[..i] + pieces[1..] + p.free[i + 1..];
      && Sum(free') + Footprint(pieces[0]) == Sum(p.free)
      && Sum(free') + Sum(p.live + [pieces[0]]) == Sum(p.free) + Sum(p.live)
  {
    var pieces := Pieces(p.free[i], req);
    PiecesFacts(p.free[i], req);
    SpliceCount(p.free, i, pieces[1..]);
    SumConcat(p.live, [pieces[0]]);
    assert [pieces[0]][1..] == [];
  }

  lemma TakePlaced(p: LegacyPool, req: nat, i: nat)
    requires Valid(p) && i < |p.free| && Fits(p.free[i], req) && req % ALIGNMENT == 0
    requires !p.free[i].inUse && p.free[i].size % ALIGNMENT == 0
    ensures var pieces := Pieces(p.free[i], req);
      var free' := p.free[..i] + pieces[1..] + p.free[i + 1..];
      && AllFree(free')
      && Placed(multiset(free') + multiset(p.live + [pieces[0]]), p.base, p.poolSize)
  {
    PiecesFacts(p.free[i], req);
    SplicePlaced(p.free, p.live, i, Pieces(p.free[i], req), p.base, p.poolSize);
  }

  /** Putting the pieces of free block `i` in its place, the first piece moving to the handed-out list, keeps the layout. */
  lemma SplicePlaced(free: seq<Block>, live: seq<Block>, i: nat, pieces: seq<Block>, base: nat, size: nat)
    requires AllFree(free) && i < |free| && |pieces| > 0 && AllFree(pieces[1..])
    requires Placed(multiset(free) + multiset(live), base, size)
    requires NonOverlapping(multiset(pieces))
    requires forall y :: y in multiset(pieces) ==> Covered(y, free[i]) && y.size % ALIGNMENT == 0
    ensures var free' := free[..i] + pieces[1..] + free[i + 1..];
      && AllFree(free')
      && Placed(multiset(free') + multiset(live + [pieces[0]]), base, size)
  {
    var free' := free[..i] + pieces[1..] + free[i + 1..];
    assert AllFree(free') by {
      SpliceCount(free, i, pieces[1..]);
      FlagsFrom(free', free, pieces[1..]);
    }
    SpliceMultiset(free, live, i, pieces);
    ReplaceInside(multiset(free) + multiset(live), base, size, free[i], multiset(pieces));
  }

  /** The blocks after the splice: free block `i` traded for its pieces. */
  lemma SpliceMultiset(free: seq<Block>, live: seq<Block>, i: nat, pieces: seq<Block>)
    requires i < |free| && |pieces| > 0
    ensures var free' := free[..i] + pieces[1..] + free[i + 1..];
      var m := multiset(free) + multiset(live);
      && free[i] in m
      && multiset(free') + multiset(live + [pieces[0]]) == m - multiset{free[i]} + multiset(pieces)
  {
    SpliceCount(free, i, pieces[1..]);
    assert pieces == [pieces[0]] + pieces[1..];
    assert multiset(pieces) == multiset{pieces[0]} + multiset(pieces[1..]);
    assert free[i] in multiset(free);
  }

  /** Mem_malloc keeps the pool valid. */
  lemma MallocValid(p: LegacyPool, n: nat)
    requires Valid(p)
    ensures Valid(MemMalloc(p, n).pool)
  {
    match FirstFit(p.free, Align(n))
    case None =>
    case Some(i) =>
      FreeUnique(p);
      MallocTakes(p, n, i);
      TakeValid(p, Align(n), i);
  }

  /**
    The block behind a pointer Mem_malloc returns holds at least the
    requested bytes, lies inside the pool, and overlaps no block handed out
    before.
  */
  lemma MallocBlock(p: LegacyPool, n: nat)
    requires Valid(p)
    ensures var r := MemMalloc(p, n);
      r.ptr.Some? ==>
        var b := r.pool.live[|p.live|];
        && b.size >= n
        && p.base <= b.addr && End(b) <= p.base + p.poolSize
        && forall j :: 0 <= j < |p.live| ==> Apart(b, p.live[j])
  {
    match FirstFit(p.free, Align(n))
    case None =>
    case Some(i) =>
      FreeUnique(p);
      MallocTakes(p, n, i);
      TakeValid(p, Align(n), i);
      NewApart(MemMalloc(p, n).pool, p.live);
  }

  /** The block a valid pool handed out last lies in the pool, apart from those handed out before it. */
  lemma NewApart(q: LegacyPool, before: seq<Block>)
    requires Valid(q) && |q.live| == |before| + 1 && q.live[..|before|] == before
    ensures var b := q.live[|before|];
      && q.base <= b.addr && End(b) <= q.base + q.poolSize
      && (forall j :: 0 <= j < |before| ==> Apart(b, before[j]))
      && !HasAddr(before, b.addr)
  {
    var b := q.live[|before|];
    assert q.live == before + [b];
    assert b in multiset(q.live);
    ListsApart(multiset(q.free) + multiset(q.live), q.base, q.poolSize, [b], before);
  }

  /** Mem_free keeps the pool valid, and the freed block is no longer handed out. */
  lemma FreeValid(p: LegacyPool, mem: nat)
    requires Valid(p) && mem >= H && HasAddr(p.live, HeaderAddr(mem))
    ensures Valid(MemFree(p, mem))
    ensures !HasAddr(MemFree(p, mem).live, HeaderAddr(mem))
  {
    var a := HeaderAddr(mem);
    var k := IndexOf(p.live, a);
    ReleaseValid(p, k);
    ListUnique(multiset(p.free) + multiset(p.live), p.base, p.poolSize, p.live);
    UniqueDelete(p.live, k);
  }

  /** Pushing handed-out block `k`, flag cleared, on the free list keeps the pool valid. */
  lemma ReleaseValid(p: LegacyPool, k: nat)
    requires Valid(p) && k < |p.live|
    ensures Valid(p.(free := [Unmark(p.live[k])] + p.free, live := p.live[..k] + p.live[k + 1..]))
  {
    ReleaseSum(p.free, p.live, k);
    ReleasePlaced(p.free, p.live, k, p.base, p.poolSize);
  }

  /** Releasing handed-out block `k` onto the head of the free list moves its footprint and nothing else. */
  lemma ReleaseSum(free: seq<Block>, live: seq<Block>, k: nat)
    requires k < |live|
    ensures Sum([Unmark(live[k])] + free) + Sum(live[..k] + live[k + 1..]) == Sum(free) + Sum(live)
  {
    SpliceCount(live, k, []);
    assert live[..k] + [] + live[k + 1..] == live[..k] + live[k + 1..];
    assert ([Unmark(live[k])] + free)[1..] == free;
  }

  /** Releasing handed-out block `k` onto the head of the free list keeps the layout and the flags of the free list clear. */
  lemma ReleasePlaced(free: seq<Block>, live: seq<Block>, k: nat, base: nat, size: nat)
    requires k < |live| && AllFree(free)
    requires Placed(multiset(free) + multiset(live), base, size)
    ensures AllFree([Unmark(live[k])] + free)
    ensures Placed(multiset([Unmark(live[k])] + free) + multiset(live[..k] + live[k + 1..]), base, size)
  {
    var b := live[k];
    var u := Unmark(b);
    var m := multiset(free) + multiset(live);
    MultisetDelete(live, k);
    assert b in multiset(live);
    assert multiset([u] + free) + multiset(live[..k] + live[k + 1..]) == m - multiset{b} + multiset{u};
    ReplaceInside(m, base, size, b, multiset{u});
  }

  /**
    The balance CheckPool prints on a valid pool: the free total plus the
    footprint of the handed-out blocks is the pool size, so the free total
    equals the pool size exactly when nothing is handed out.
  */
  lemma CheckPoolBalance(p: LegacyPool)
    requires Valid(p)
    ensures CheckPool(p) + Sum(p.live) == p.poolSize
    ensures CheckPool(p) == p.poolSize <==> p.live == []
  {
    RawSumFlags(p.free);
  }

  /**
    Freeing what Mem_malloc returned gives back the handed-out list as it
    was and the free total CheckPool reports; the free list itself need not
    come back, since the remainder of a split is not merged again.
  */
  lemma RoundTrip(p: LegacyPool, n: nat)
    requires Valid(p) && MemMalloc(p, n).ptr.Some?
    ensures HasAddr(MemMalloc(p, n).pool.live, HeaderAddr(MemMalloc(p, n).ptr.value))
    ensures var r := MemMalloc(p, n);
      var q := MemFree(r.pool, r.ptr.value);
      && Valid(q) && q.live == p.live && CheckPool(q) == CheckPool(p)
  {
    var r := MemMalloc(p, n);
    match FirstFit(p.free, Align(n))
    case Some(i) =>
      FreeUnique(p);
      MallocTakes(p, n, i);
      UndoTake(p, Align(n), i);
      MallocValid(p, n);
      FreeValid(r.pool, r.ptr.value);
  }

  /** Releasing the block just taken from free block `i` restores the handed-out list and the free total. */
  lemma UndoTake(p: LegacyPool, req: nat, i: nat)
    requires Valid(p) && req % ALIGNMENT == 0 && i < |p.free| && Fits(p.free[i], req)
    ensures var pieces := Pieces(p.free[i], req);
      var t := pieces[0];
      var q := p.(free := p.free[..i] + pieces[1..] + p.free[i + 1..], live := p.live + [t]);
      && HasAddr(q.live, t.addr) && IndexOf(q.live, t.addr) == |p.live|
      && RemoveFromList(q.live, t.addr).list == p.live
      && RawSum([Unmark(t)] + q.free) == RawSum(p.free)
  {
    var pieces := Pieces(p.free[i], req);
    var t := pieces[0];
    var q := p.(free := p.free[..i] + pieces[1..] + p.free[i + 1..], live := p.live + [t]);
    TakeValid(p, req, i);
    assert !HasAddr(p.live, t.addr) by {
      NewApart(q, p.live);
    }
    UnlinkLast(p.live, t);
    PushedSum(p.free, q.free, t);
  }

  /** Unlinking a block appended after blocks at other addresses gives the earlier blocks back. */
  lemma UnlinkLast(s: seq<Block>, t: Block)
    requires !HasAddr(s, t.addr)
    ensures HasAddr(s + [t], t.addr) && IndexOf(s + [t], t.addr) == |s|
    ensures RemoveFromList(s + [t], t.addr).list == s
  {
    var u := s + [t];
    var k := |s|;
    assert forall j :: 0 <= j < k ==> u[j] == s[j];
    RemoveAt(u, k);
    assert u[..k] + u[k + 1..] == s;
  }

  /** Pushing the cleared block back on a free list that lost its footprint restores the raw free total. */
  lemma PushedSum(free: seq<Block>, free': seq<Block>, t: Block)
    requires AllFree(free) && AllFree(free')
    requires Sum(free') + Footprint(t) == Sum(free)
    ensures RawSum([Unmark(t)] + free') == RawSum(free)
  {
    assert ([Unmark(t)] + free')[1..] == free';
    RawSumFlags(free);
    RawSumFlags(free');
  }

  /**
    LIFO reuse: right after Mem_free, a Mem_malloc whose aligned size is
    the freed block's size gets the same pointer back and leaves the free
    list as it was before the free.
  */
  lemma ReuseAfterFree(p: LegacyPool, mem: nat, n: nat)
    requires mem >= H && HasAddr(p.live, HeaderAddr(mem))
    requires p.live[IndexOf(p.live, HeaderAddr(mem))].size == Align(n)
    ensures MemMalloc(MemFree(p, mem), n).ptr == Some(mem)
    ensures MemMalloc(MemFree(p, mem), n).pool.free == p.free
  {
    var q := MemFree(p, mem);
    var u := q.free[0];
    assert Fits(u, Align(n));
    assert FirstFit(q.free, Align(n)) == Some(0);
    assert Pieces(u, Align(n)) == [u];
    assert RemoveFromList(q.free, u.addr).list == q.free[1..];
  }

  /**
    An exact fit is handed out with bit 0 of its word still clear: in a
    1024-byte pool, a 1008-byte request takes the whole single block
    without marking it.
  */
  lemma ExactFitFlagClear()
    ensures var r := MemMalloc(InitMemPool(0, 1024).0, 1008);
      && r.ptr == Some(H)
      && r.pool.live == [Block(0, 1008, false)]
      && r.pool.free == []
  {
    var p := InitMemPool(0, 1024).0;
    var b := Block(0, 1008, false);
    assert p.free == [b];
    assert Align(1008) == 1008;
    assert FirstFit(p.free, 1008) == Some(0);
    assert Pieces(b, 1008) == [b];
    assert RemoveFromList([b], 0).list == [];
  }

  /**
    The MIN_BLOCK_SIZE wrap on a whole allocation: a request of 2^64 - 8
    bytes on a free list holding one 8-byte block.  The model returns NULL;
    the C test, whose bound wraps to 8, accepts the block and hands it out
    whole.
  */
  lemma WrappedRequestRefused()
    ensures var p := LegacyPool(0, 24, [Block(0, 8, false)], []);
      var req := SIZE_MODULUS - ALIGNMENT;
      && AlignWord(req) == req == Align(req)
      && MemMalloc(p, req).ptr.None?
      && FitsWord(p.free[0], req) && !SplitsWord(p.free[0], req)
  {
    var p := LegacyPool(0, 24, [Block(0, 8, false)], []);
    var req := SIZE_MODULUS - ALIGNMENT;
    FitsWordWraps(p.free[0], req);
  }
}
