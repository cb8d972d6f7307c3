/**
  What the newer allocator keeps and promises: every operation preserves
  the pool invariant, allocation and release are inverse on the alloc list,
  and the diagnostics count what the invariant says they count.
*/
module MemmgrProofs {
  import opened Header
  import opened BlockList
  import opened Fit
  import opened Layout
  import opened Coalesce
  import opened Wrappers
  import opened Memmgr

  /** Refilling the heap from the coalesced free list keeps the pool invariant. */
  lemma ReclaimValid(p: Pool)
    requires Valid(p)
    ensures Valid(Reclaim(p))
  {
    if |p.free| > 0 {
      var c := MemCoalesceBlocks(p.free);
      CoalesceFacts(p);
      MoveBest(p, c);
    }
  }

  /**
    The refill moves exactly the block the coalescing pass picked: the heap
    gains it, and the free list is the coalesced list without it.
  */
  lemma ReclaimMoves(p: Pool)
    requires Valid(p) && |p.free| > 0
    ensures var c := MemCoalesceBlocks(p.free);
      && c.best.Some?
      && multiset(Reclaim(p).heap) == multiset(p.heap) + multiset{c.best.value}
      && multiset(Reclaim(p).free) == multiset(c.list) - multiset{c.best.value}
  {
    ReclaimMovesFor(p, MemCoalesceBlocks(p.free), Reclaim(p));
  }

  /** ReclaimMoves with the coalesced list and the reclaimed pool named. */
  lemma ReclaimMovesFor(p: Pool, c: Coalesced, q: Pool)
    requires Valid(p) && |p.free| > 0
    requires c == MemCoalesceBlocks(p.free) && q == Reclaim(p)
    ensures c.best.Some?
    ensures multiset(q.heap) == multiset(p.heap) + multiset{c.best.value}
    ensures multiset(q.free) == multiset(c.list) - multiset{c.best.value}
  {
    CoalesceFacts(p);
    var b := c.best.value;
    assert q.free == RemoveFromList(c.list, b.addr).list;
    assert q.heap == InsertToList(p.heap, b).list;
    MoveBestLists(p, c, multiset(p.heap) + multiset(p.alloc) + multiset(c.list));
  }

  /** What the coalescing pass leaves on a valid pool with a non-empty free list. */
  lemma CoalesceFacts(p: Pool)
    requires Valid(p) && |p.free| > 0
    ensures var c := MemCoalesceBlocks(p.free);
      && c.best.Some? && c.best.value in c.list
      && StrictlySorted(c.list) && AllFree(c.list)
      && Placed(multiset(p.heap) + multiset(p.alloc) + multiset(c.list), p.base, p.poolSize)
      && Sum(p.heap) + Sum(c.list) + Sum(p.alloc) == p.poolSize
  {
    var m := multiset(p.heap) + multiset(p.alloc);
    assert Blocks(p) == m + multiset(p.free);
    CoalesceKeeps(m, p.base, p.poolSize, p.free);
    CoalesceSorted(p.free);
    CoalesceBest(p.free);
  }

  /** Moving the block the coalescing pass chose from the coalesced free list into the heap. */
  lemma MoveBest(p: Pool, c: Coalesced)
    requires c.best.Some? && c.best.value in c.list
    requires StrictlySorted(p.heap) && StrictlySorted(p.alloc) && StrictlySorted(c.list)
    requires AllFree(p.heap) && AllFree(c.list) && AllInUse(p.alloc)
    requires Placed(multiset(p.heap) + multiset(p.alloc) + multiset(c.list), p.base, p.poolSize)
    requires Sum(p.heap) + Sum(c.list) + Sum(p.alloc) == p.poolSize
    ensures var b := c.best.value;
      Valid(p.(free := RemoveFromList(c.list, b.addr).list, heap := InsertToList(p.heap, b).list))
  {
    var b := c.best.value;
    var m := multiset(p.heap) + multiset(p.alloc) + multiset(c.list);
    MoveBestLists(p, c, m);
    MoveValid(p, c.list, b, RemoveFromList(c.list, b.addr).list, InsertToList(p.heap, b).list);
  }

  /** The pool with `b` moved from list `s` to the heap, given how the two new lists relate to the old ones. */
  lemma MoveValid(p: Pool, s: seq<Block>, b: Block, free': seq<Block>, heap': seq<Block>)
    requires StrictlySorted(p.alloc) && AllInUse(p.alloc)
    requires Placed(multiset(p.heap) + multiset(p.alloc) + multiset(s), p.base, p.poolSize)
    requires Sum(p.heap) + Sum(s) + Sum(p.alloc) == p.poolSize
    requires StrictlySorted(free') && StrictlySorted(heap') && AllFree(free') && AllFree(heap')
    requires multiset(heap') == multiset(p.heap) + multiset{b}
    requires multiset(s) == multiset(free') + multiset{b}
    ensures Valid(p.(free := free', heap := heap'))
  {
    var q := p.(free := free', heap := heap');
    assert Sum(q.heap) + Sum(q.free) + Sum(q.alloc) == q.poolSize by {
      SumAdd(heap', p.heap, b);
      SumAdd(s, free', b);
    }
    assert Blocks(q) == multiset(p.heap) + multiset(p.alloc) + multiset(s);
  }

  /** The lists after the move: both sorted and flag-clear, the heap one block more, the free list one less. */
  lemma MoveBestLists(p: Pool, c: Coalesced, m: multiset<Block>)
    requires c.best.Some? && c.best.value in c.list
    requires StrictlySorted(p.heap) && StrictlySorted(c.list)
    requires AllFree(p.heap) && AllFree(c.list)
    requires m == multiset(p.heap) + multiset(p.alloc) + multiset(c.list)
    requires Placed(m, p.base, p.poolSize)
    ensures var b := c.best.value;
      var free' := RemoveFromList(c.list, b.addr).list;
      var heap' := InsertToList(p.heap, b).list;
      && StrictlySorted(free') && StrictlySorted(heap') && AllFree(free') && AllFree(heap')
      && multiset(heap') == multiset(p.heap) + multiset{b}
      && multiset(c.list) == multiset(free') + multiset{b}
  {
    var b := c.best.value;
    TakeOff(c.list, b);
    BestApart(p, c, m);
    PutOn(p.heap, b);
  }

  /** Removing a member block from a sorted flag-clear list leaves a sorted flag-clear list without it. */
  lemma TakeOff(s: seq<Block>, b: Block)
    requires StrictlySorted(s) && AllFree(s) && b in s
    ensures var s' := RemoveFromList(s, b.addr).list;
      StrictlySorted(s') && AllFree(s') && multiset(s) == multiset(s') + multiset{b}
  {
    RemoveMember(s, b);
    FlagsFrom(RemoveFromList(s, b.addr).list, s, []);
  }

  /** Inserting a flag-clear block at a new address into a sorted flag-clear list adds exactly it. */
  lemma PutOn(s: seq<Block>, b: Block)
    requires StrictlySorted(s) && AllFree(s) && !b.inUse && !HasAddr(s, b.addr)
    ensures var s' := InsertToList(s, b).list;
      StrictlySorted(s') && AllFree(s') && multiset(s') == multiset(s) + multiset{b}
  {
    FlagsFrom(InsertToList(s, b).list, s, [b]);
  }

  /** The chosen block's address is not on the heap: coalesced free blocks and heap blocks are apart. */
  lemma BestApart(p: Pool, c: Coalesced, m: multiset<Block>)
    requires c.best.Some? && c.best.value in c.list
    requires m == multiset(p.heap) + multiset(p.alloc) + multiset(c.list)
    requires Placed(m, p.base, p.poolSize)
    ensures !HasAddr(p.heap, c.best.value.addr)
  {
    ListsApart(m, p.base, p.poolSize, c.list, p.heap);
  }


  /** Refilling keeps the pool invariant. */
  lemma RefillValid(p: Pool, req: nat)
    requires Valid(p)
    ensures Valid(Refill(p, req))
  {
    if |p.heap| == 0 || Word(p.heap[0]) < req {
      ReclaimValid(p);
    }
  }

  /**
    What carving a fitting free block gives: the handed-out part holds at
    least the request and sits at the block's address, the pieces lie inside
    the block without overlapping, are aligned, and together take the
    block's footprint.
  */
  lemma CarvePieces(b: Block, req: nat)
    requires !b.inUse && b.size % ALIGNMENT == 0 && req % ALIGNMENT == 0 && Fits(b, req)
    ensures var r := Carve(b, req);
      && r[0].size >= req && r[0].size % ALIGNMENT == 0 && r[0].addr == b.addr
      && AllFree(r[1..])
      && NonOverlapping(multiset(r))
      && (forall y :: y in multiset(r) ==> Covered(y, b) && y.size % ALIGNMENT == 0)
      && Footprint(r[0]) + Sum(r[1..]) == Footprint(b)
      && (|r| == 2 ==> b.addr < r[1].addr < End(b))
  {
    var r := Carve(b, req);
    if |r| == 2 {
      var c := SplitAt(b, req);
      assert r == [c.taken, c.rest];
      assert r[1..] == [c.rest];
      assert multiset(r) == multiset{c.taken, c.rest};
      assert Sum(r[1..]) == Footprint(c.rest);
    } else {
      assert r[1..] == [];
      assert multiset(r) == multiset{Mark(b)};
    }
  }

  /** Unlinking the handed-out part, the first block at its address, leaves the rest of the carve in the block's place. */
  lemma UnlinkTaken(h: seq<Block>, i: nat, pieces: seq<Block>)
    requires StrictlySorted(h) && i < |h| && |pieces| > 0 && pieces[0].addr == h[i].addr
    ensures RemoveFromList(h[..i] + pieces + h[i + 1..], pieces[0].addr).list == h[..i] + pieces[1..] + h[i + 1..]
  {
    assert forall j :: 0 <= j < i ==> h[j].addr < h[i].addr;
    UnlinkFirst(h, i, pieces);
  }

  /** The heap after the carve: position `i` replaced by the remainder, if any, keeps order and flags. */
  lemma CarvedHeap(h: seq<Block>, i: nat, rest: seq<Block>)
    requires StrictlySorted(h) && AllFree(h) && i < |h| && AllFree(rest) && |rest| <= 1
    requires |rest| == 1 ==> h[i].addr < rest[0].addr && (i + 1 < |h| ==> rest[0].addr < h[i + 1].addr)
    ensures StrictlySorted(h[..i] + rest + h[i + 1..]) && AllFree(h[..i] + rest + h[i + 1..])
  {
    var h' := h[..i] + rest + h[i + 1..];
    SpliceCount(h, i, rest);
    FlagsFrom(h', h, rest);
    if |rest| == 0 {
      assert h' == h[..i] + h[i + 1..];
      DeleteAt(h, i);
    } else {
      forall a, c | 0 <= a < c < |h'|
        ensures h'[a].addr < h'[c].addr
      {
        if c > i && a < i {
          assert h'[a] == h[a];
          assert h[a].addr < h[i].addr;
        }
        if c > i + 1 && a <= i {
          assert h'[c] == h[c];
          if i + 1 < c {
            assert h[i + 1].addr <= h[c].addr;
          }
        }
      }
    }
  }


  /** The heap block picked by first-fit is free, aligned, and ends before the next heap block starts. */
  lemma PickedBlock(q: Pool, i: nat)
    requires Valid(q) && i < |q.heap|
    ensures !q.heap[i].inUse && q.heap[i].size % ALIGNMENT == 0
    ensures i + 1 < |q.heap| ==> End(q.heap[i]) <= q.heap[i + 1].addr
    ensures !HasAddr(q.alloc, q.heap[i].addr)
  {
    var h := q.heap;
    assert h[i] in multiset(h);
    if i + 1 < |h| {
      assert h[i + 1] in multiset(h);
      assert h[i].addr < h[i + 1].addr;
      assert Apart(h[i], h[i + 1]);
    }
    ListsApart(Blocks(q), q.base, q.poolSize, h, q.alloc);
  }

  /**
    One successful allocation from a valid pool: the picked heap block is
    carved, the remainder stays in its place in the heap, and the handed-out
    part joins the alloc list.  The pool stays valid.
  */
  lemma TakeValid(q: Pool, req: nat, i: nat)
    requires Valid(q) && req % ALIGNMENT == 0 && i < |q.heap| && Fits(q.heap[i], req)
    ensures var pieces := Carve(q.heap[i], req);
      var alloc' := InsertToList(q.alloc, pieces[0]).list;
      && Valid(q.(heap := q.heap[..i] + pieces[1..] + q.heap[i + 1..], alloc := alloc'))
      && multiset(alloc') == multiset(q.alloc) + multiset{pieces[0]}
      && pieces[0].size >= req
  {
    PickedBlock(q, i);
    CarvePieces(q.heap[i], req);
    TakeLists(q, req, i);
    TakeSum(q, req, i);
    TakePlaced(q, req, i);
  }

  lemma TakeLists(q: Pool, req: nat, i: nat)
    requires StrictlySorted(q.heap) && AllFree(q.heap) && StrictlySorted(q.alloc) && AllInUse(q.alloc)
    requires req % ALIGNMENT == 0 && i < |q.heap| && Fits(q.heap[i], req)
    requires q.heap[i].size % ALIGNMENT == 0 && !HasAddr(q.alloc, q.heap[i].addr)
    requires i + 1 < |q.heap| ==> End(q.heap[i]) <= q.heap[i + 1].addr
    ensures var pieces := Carve(q.heap[i], req);
      var heap' := q.heap[..i] + pieces[1..] + q.heap[i + 1..];
      var alloc' := InsertToList(q.alloc, pieces[0]).list;
      && StrictlySorted(heap') && AllFree(heap') && StrictlySorted(alloc') && AllInUse(alloc')
      && multiset(alloc') == multiset(q.alloc) + multiset{pieces[0]}
  {
    var b := q.heap[i];
    var pieces := Carve(b, req);
    CarvePieces(b, req);
    CarvedHeap(q.heap, i, pieces[1..]);
    var alloc' := InsertToList(q.alloc, pieces[0]).list;
    FlagsFrom(alloc', q.alloc, [pieces[0]]);
  }

  lemma TakeSum(q: Pool, req: nat, i: nat)
    requires req % ALIGNMENT == 0 && i < |q.heap| && Fits(q.heap[i], req)
    requires !HasAddr(q.alloc, q.heap[i].addr) && StrictlySorted(q.alloc)
    requires !q.heap[i].inUse && q.heap[i].size % ALIGNMENT == 0
    ensures var pieces := Carve(q.heap[i], req);
      var heap' := q.heap[..i] + pieces[1..] + q.heap[i + 1..];
      var alloc' := InsertToList(q.alloc, pieces[0]).list;
      Sum(heap') + Sum(alloc') == Sum(q.heap) + Sum(q.alloc)
  {
    var b := q.heap[i];
    var pieces := Carve(b, req);
    CarvePieces(b, req);
    SpliceCount(q.heap, i, pieces[1..]);
    SumAdd(InsertToList(q.alloc, pieces[0]).list, q.alloc, pieces[0]);
  }

  lemma TakePlaced(q: Pool, req: nat, i: nat)
    requires Placed(Blocks(q), q.base, q.poolSize)
    requires req % ALIGNMENT == 0 && i < |q.heap| && Fits(q.heap[i], req)
    requires !HasAddr(q.alloc, q.heap[i].addr) && StrictlySorted(q.alloc)
    requires !q.heap[i].inUse && q.heap[i].size % ALIGNMENT == 0
    ensures var pieces := Carve(q.heap[i], req);
      var heap' := q.heap[..i] + pieces[1..] + q.heap[i + 1..];
      var alloc' := InsertToList(q.alloc, pieces[0]).list;
      Placed(Blocks(q.(heap := heap', alloc := alloc')), q.base, q.poolSize)
  {
    var b := q.heap[i];
    CarvePieces(b, req);
    TakeBlocks(q, req, i);
    assert b in multiset(q.heap);
    ReplaceInside(Blocks(q), q.base, q.poolSize, b, multiset(Carve(b, req)));
  }

  /** Taking a block trades the carved heap block for its pieces among all blocks of the pool. */
  lemma TakeBlocks(q: Pool, req: nat, i: nat)
    requires i < |q.heap|
    requires !HasAddr(q.alloc, q.heap[i].addr) && StrictlySorted(q.alloc)
    ensures var pieces := Carve(q.heap[i], req);
      var heap' := q.heap[..i] + pieces[1..] + q.heap[i + 1..];
      var alloc' := InsertToList(q.alloc, pieces[0]).list;
      Blocks(q.(heap := heap', alloc := alloc')) == Blocks(q) - multiset{q.heap[i]} + multiset(pieces)
  {
    var pieces := Carve(q.heap[i], req);
    SpliceBlocks(q, i, pieces, InsertToList(q.alloc, pieces[0]).list);
  }

  /** Block `i` of the heap replaced by `pieces`, the first of which joins the alloc list. */
  lemma SpliceBlocks(q: Pool, i: nat, pieces: seq<Block>, alloc': seq<Block>)
    requires i < |q.heap| && |pieces| > 0
    requires multiset(alloc') == multiset(q.alloc) + multiset{pieces[0]}
    ensures Blocks(q.(heap := q.heap[..i] + pieces[1..] + q.heap[i + 1..], alloc := alloc'))
      == Blocks(q) - multiset{q.heap[i]} + multiset(pieces)
  {
    var h := q.heap;
    var rest := pieces[1..];
    var d := h[..i] + h[i + 1..];
    SpliceCount(h, i, rest);
    HeadSplit(pieces);
    assert Blocks(q) - multiset{h[i]} == multiset(d) + multiset(q.free) + multiset(q.alloc);
  }

  /** MemAlloc keeps the pool invariant, and a successful call puts one more block on the alloc list. */
  lemma MemAllocValid(p: Pool, n: nat)
    requires Valid(p)
    ensures Valid(MemAlloc(p, n).pool)
    ensures MemAlloc(p, n).ptr.Some? ==> |MemAlloc(p, n).pool.alloc| == |p.alloc| + 1
  {
    var req := Align(n);
    var q := Refill(p, req);
    RefillValid(p, req);
    match FirstFit(q.heap, req)
    case None =>
      AllocNone(p, n);
    case Some(i) =>
      AllocTakes(p, n, i);
      AllocValid(q, n, i, MemAlloc(p, n));
  }

  /** An allocation that finds no fitting heap block returns NULL and leaves the refilled pool. */
  lemma AllocNone(p: Pool, n: nat)
    requires FirstFit(Refill(p, Align(n)).heap, Align(n)).None?
    ensures MemAlloc(p, n) == Alloc(Refill(p, Align(n)), None)
  {
  }

  /** The facts of MemAllocValid, for an allocation already known to carve heap block `i`. */
  lemma AllocValid(q: Pool, n: nat, i: nat, r: Alloc)
    requires Valid(q) && i < |q.heap| && Fits(q.heap[i], Align(n))
    requires var pieces := Carve(q.heap[i], Align(n));
      r.pool == q.(heap := q.heap[..i] + pieces[1..] + q.heap[i + 1..], alloc := InsertToList(q.alloc, pieces[0]).list)
    ensures Valid(r.pool) && |r.pool.alloc| == |q.alloc| + 1
  {
    var pieces := Carve(q.heap[i], Align(n));
    TakeValid(q, Align(n), i);
    var alloc' := InsertToList(q.alloc, pieces[0]).list;
    assert |multiset(alloc')| == |multiset(q.alloc)| + 1;
  }

  /**
    The block behind a pointer MemAlloc returns: it is on the alloc list and
    was not before, holds at least the requested bytes, lies inside the
    pool, and overlaps no block that was allocated before.
  */
  lemma MemAllocBlock(p: Pool, n: nat)
    requires Valid(p)
    ensures var r := MemAlloc(p, n);
      r.ptr.Some? ==> HasAddr(r.pool.alloc, r.ptr.value - H) && !HasAddr(p.alloc, r.ptr.value - H)
    ensures var r := MemAlloc(p, n);
      r.ptr.Some? ==> forall b :: b in r.pool.alloc && b.addr == r.ptr.value - H ==>
        && b.size >= n
        && p.base <= b.addr && End(b) <= p.base + p.poolSize
        && forall j :: 0 <= j < |p.alloc| ==> Apart(b, p.alloc[j])
  {
    AllocBlockFor(p, n, MemAlloc(p, n));
  }

  /** MemAllocBlock for a named result `r` of MemAlloc. */
  lemma AllocBlockFor(p: Pool, n: nat, r: Alloc)
    requires Valid(p) && r == MemAlloc(p, n)
    ensures r.ptr.Some? ==> HasAddr(r.pool.alloc, r.ptr.value - H) && !HasAddr(p.alloc, r.ptr.value - H)
    ensures r.ptr.Some? ==> forall b :: b in r.pool.alloc && b.addr == r.ptr.value - H ==>
        && b.size >= n
        && p.base <= b.addr && End(b) <= p.base + p.poolSize
        && forall j :: 0 <= j < |p.alloc| ==> Apart(b, p.alloc[j])
  {
    var req := Align(n);
    var q := Refill(p, req);
    RefillValid(p, req);
    match FirstFit(q.heap, req)
    case None =>
      AllocNone(p, n);
    case Some(i) =>
      AllocTakes(p, n, i);
      AllocFacts(p, n, i, r);
  }

  /** The facts of MemAllocBlock, for an allocation already known to carve block `i` of the refilled heap. */
  lemma AllocFacts(p: Pool, n: nat, i: nat, r: Alloc)
    requires var q := Refill(p, Align(n));
      && Valid(q) && i < |q.heap| && Fits(q.heap[i], Align(n))
      && r.ptr == Some(PayloadAddr(Carve(q.heap[i], Align(n))[0]))
      && r.pool.alloc == InsertToList(q.alloc, Carve(q.heap[i], Align(n))[0]).list
    ensures HasAddr(r.pool.alloc, r.ptr.value - H) && !HasAddr(p.alloc, r.ptr.value - H)
    ensures forall b :: b in r.pool.alloc && b.addr == r.ptr.value - H ==>
        && b.size >= n
        && p.base <= b.addr && End(b) <= p.base + p.poolSize
        && forall j :: 0 <= j < |p.alloc| ==> Apart(b, p.alloc[j])
  {
    TakeBlock(Refill(p, Align(n)), Align(n), i);
  }

  /** A successful MemAlloc is the carve of the first fitting block of the refilled heap. */
  lemma AllocTakes(p: Pool, n: nat, i: nat)
    requires StrictlySorted(Refill(p, Align(n)).heap)
    requires FirstFit(Refill(p, Align(n)).heap, Align(n)) == Some(i)
    ensures var q := Refill(p, Align(n));
      var pieces := Carve(q.heap[i], Align(n));
      var alloc' := InsertToList(q.alloc, pieces[0]).list;
      MemAlloc(p, n) == Alloc(q.(heap := q.heap[..i] + pieces[1..] + q.heap[i + 1..], alloc := alloc'), Some(PayloadAddr(pieces[0])))
  {
    var req := Align(n);
    var q := Refill(p, req);
    var pieces := Carve(q.heap[i], req);
    var heap' := q.heap[..i] + pieces[1..] + q.heap[i + 1..];
    UnlinkTaken(q.heap, i, pieces);
    assert RemoveFromList(q.heap[..i] + pieces + q.heap[i + 1..], pieces[0].addr).list == heap';
    assert FindFit(p, req) == Found(q.(heap := heap'), Some(pieces[0]));
  }

  /** The handed-out part of a carve: the only block at its address on the new alloc list, inside the pool, apart from the old allocations. */
  lemma TakeBlock(q: Pool, req: nat, i: nat)
    requires Valid(q) && req % ALIGNMENT == 0 && i < |q.heap| && Fits(q.heap[i], req)
    ensures var t := Carve(q.heap[i], req)[0];
      var alloc' := InsertToList(q.alloc, t).list;
      && HasAddr(alloc', t.addr) && !HasAddr(q.alloc, t.addr)
      && (forall b :: b in alloc' && b.addr == t.addr ==> b == t)
      && t.size >= req && q.base <= t.addr && End(t) <= q.base + q.poolSize
      && (forall j :: 0 <= j < |q.alloc| ==> Apart(t, q.alloc[j]))
      && alloc'[IndexOf(alloc', t.addr)] == t
      && multiset(alloc') == multiset(q.alloc) + multiset{t}
  {
    var pieces := Carve(q.heap[i], req);
    var t := pieces[0];
    var alloc' := InsertToList(q.alloc, t).list;
    var q' := q.(heap := q.heap[..i] + pieces[1..] + q.heap[i + 1..], alloc := alloc');
    PickedBlock(q, i);
    CarvePieces(q.heap[i], req);
    TakeLists(q, req, i);
    TakePlaced(q, req, i);
    TakeApart(q', t, q.alloc);
    IndexOfMember(alloc', t);
    forall b | b in alloc' && b.addr == t.addr
      ensures b == t
    {
      IndexOfMember(alloc', b);
    }
  }

  /** A block of the new alloc list lies in the pool and apart from the blocks that were there before it. */
  lemma TakeApart(q': Pool, t: Block, before: seq<Block>)
    requires Placed(Blocks(q'), q'.base, q'.poolSize)
    requires multiset(q'.alloc) == multiset(before) + multiset{t}
    requires !HasAddr(before, t.addr)
    ensures t in q'.alloc && q'.base <= t.addr && End(t) <= q'.base + q'.poolSize
    ensures forall j :: 0 <= j < |before| ==> Apart(t, before[j])
  {
    assert t in multiset(q'.alloc);
    assert t in Blocks(q');
    forall j | 0 <= j < |before|
      ensures Apart(t, before[j])
    {
      assert before[j] in multiset(q'.alloc);
      assert before[j] in Blocks(q');
      assert before[j].addr != t.addr;
    }
  }

  /** Refilling never takes a block off the heap. */
  lemma RefillKeepsHeap(p: Pool, req: nat)
    ensures multiset(p.heap) <= multiset(Refill(p, req).heap)
  {
  }

  /** If some heap block fits the aligned request, MemAlloc does not return NULL. */
  lemma MemAllocSucceeds(p: Pool, n: nat, k: nat)
    requires k < |p.heap| && Fits(p.heap[k], Align(n))
    ensures MemAlloc(p, n).ptr.Some?
  {
    var q := Refill(p, Align(n));
    RefillKeepsHeap(p, Align(n));
    assert p.heap[k] in multiset(q.heap);
    var j :| 0 <= j < |q.heap| && q.heap[j] == p.heap[k];
    assert FirstFit(q.heap, Align(n)).Some?;
  }

  /** MemFree keeps the pool invariant: the block moves from the alloc list to the free list, flag cleared. */
  lemma MemFreeValid(p: Pool, mem: nat)
    requires Valid(p) && mem >= H && HasAddr(p.alloc, HeaderAddr(mem))
    ensures var r := MemFree(p, mem);
      && Valid(r)
      && |r.free| == |p.free| + 1 && |r.alloc| + 1 == |p.alloc|
      && !HasAddr(r.alloc, HeaderAddr(mem))
  {
    var a := HeaderAddr(mem);
    var blk := p.alloc[IndexOf(p.alloc, a)];
    var u := Unmark(blk);
    FreeLists(p, mem);
    FreeSum(p, mem);
    FreePlaced(p, mem);
  }

  lemma FreeLists(p: Pool, mem: nat)
    requires Valid(p) && mem >= H && HasAddr(p.alloc, HeaderAddr(mem))
    ensures var blk := p.alloc[IndexOf(p.alloc, HeaderAddr(mem))];
      var r := MemFree(p, mem);
      && StrictlySorted(r.free) && StrictlySorted(r.alloc) && AllFree(r.free) && AllInUse(r.alloc)
      && multiset(p.alloc) == multiset(r.alloc) + multiset{blk}
      && multiset(r.free) == multiset(p.free) + multiset{Unmark(blk)}
      && !HasAddr(r.alloc, HeaderAddr(mem))
      && blk.size % ALIGNMENT == 0
  {
    var a := HeaderAddr(mem);
    var k := IndexOf(p.alloc, a);
    var blk := p.alloc[k];
    RemoveMember(p.alloc, blk);
    RemoveKeepsSorted(p.alloc, a);
    ListsApart(Blocks(p), p.base, p.poolSize, p.alloc, p.free);
    assert !HasAddr(p.free, blk.addr);
    var r := MemFree(p, mem);
    FlagsFrom(r.free, p.free, [Unmark(blk)]);
    FlagsFrom(r.alloc, p.alloc, []);
    assert blk in Blocks(p);
  }

  lemma FreeSum(p: Pool, mem: nat)
    requires Valid(p) && mem >= H && HasAddr(p.alloc, HeaderAddr(mem))
    ensures var r := MemFree(p, mem);
      Sum(r.heap) + Sum(r.free) + Sum(r.alloc) == p.poolSize
  {
    var blk := p.alloc[IndexOf(p.alloc, HeaderAddr(mem))];
    var r := MemFree(p, mem);
    FreeLists(p, mem);
    SumAdd(p.alloc, r.alloc, blk);
    SumAdd(r.free, p.free, Unmark(blk));
  }

  lemma FreePlaced(p: Pool, mem: nat)
    requires Valid(p) && mem >= H && HasAddr(p.alloc, HeaderAddr(mem))
    ensures Placed(Blocks(MemFree(p, mem)), p.base, p.poolSize)
  {
    var blk := p.alloc[IndexOf(p.alloc, HeaderAddr(mem))];
    FreeLists(p, mem);
    assert blk in multiset(p.alloc);
    FreeBlocks(p, mem);
    ReplaceInside(Blocks(p), p.base, p.poolSize, blk, multiset{Unmark(blk)});
  }

  /** Freeing trades the allocated block for its flag-cleared copy among all blocks of the pool. */
  lemma FreeBlocks(p: Pool, mem: nat)
    requires mem >= H && HasAddr(p.alloc, HeaderAddr(mem))
    requires var blk := p.alloc[IndexOf(p.alloc, HeaderAddr(mem))];
      var r := MemFree(p, mem);
      && multiset(p.alloc) == multiset(r.alloc) + multiset{blk}
      && multiset(r.free) == multiset(p.free) + multiset{Unmark(blk)}
    ensures var blk := p.alloc[IndexOf(p.alloc, HeaderAddr(mem))];
      Blocks(MemFree(p, mem)) == Blocks(p) - multiset{blk} + multiset{Unmark(blk)}
  {
  }

  /** A successful MemAlloc adds exactly the block behind the returned pointer to the alloc list. */
  lemma MemAllocAdds(p: Pool, n: nat)
    requires Valid(p) && MemAlloc(p, n).ptr.Some?
    ensures var r := MemAlloc(p, n);
      forall b :: b in r.pool.alloc && b.addr == r.ptr.value - H ==>
        multiset(r.pool.alloc) == multiset(p.alloc) + multiset{b}
  {
    AllocAddsFor(p, n, MemAlloc(p, n));
  }

  /** MemAllocAdds with the allocation's result named. */
  lemma AllocAddsFor(p: Pool, n: nat, r: Alloc)
    requires Valid(p) && r == MemAlloc(p, n) && r.ptr.Some?
    ensures forall b :: b in r.pool.alloc && b.addr == r.ptr.value - H ==>
      multiset(r.pool.alloc) == multiset(p.alloc) + multiset{b}
  {
    var req := Align(n);
    var q := Refill(p, req);
    RefillValid(p, req);
    match FirstFit(q.heap, req)
    case Some(i) =>
      AllocTakes(p, n, i);
      AllocAdds(q, n, i, r);
  }

  /** The facts of MemAllocAdds, for an allocation already known to carve heap block `i`. */
  lemma AllocAdds(q: Pool, n: nat, i: nat, r: Alloc)
    requires Valid(q) && i < |q.heap| && Fits(q.heap[i], Align(n))
    requires r.ptr == Some(PayloadAddr(Carve(q.heap[i], Align(n))[0]))
    requires r.pool.alloc == InsertToList(q.alloc, Carve(q.heap[i], Align(n))[0]).list
    ensures forall b :: b in r.pool.alloc && b.addr == r.ptr.value - H ==>
        multiset(r.pool.alloc) == multiset(q.alloc) + multiset{b}
  {
    TakeBlock(q, Align(n), i);
  }

  /**
    Releasing what MemAlloc returned gives back the alloc list as it was,
    and the free total as it was: allocation and release are inverse on
    what the diagnostics report.
  */
  lemma AllocFreeRoundTrip(p: Pool, n: nat)
    requires Valid(p) && MemAlloc(p, n).ptr.Some?
    ensures MemAlloc(p, n).ptr.value >= H && HasAddr(MemAlloc(p, n).pool.alloc, HeaderAddr(MemAlloc(p, n).ptr.value))
    ensures var r := MemAlloc(p, n);
      var p' := MemFree(r.pool, r.ptr.value);
      && Valid(p')
      && p'.alloc == p.alloc
      && MemGetTotalMemFree(p') == MemGetTotalMemFree(p)
      && MemGetTotalMemAlloc(p') == MemGetTotalMemAlloc(p)
  {
    var r := MemAlloc(p, n);
    MemAllocValid(p, n);
    MemAllocBlock(p, n);
    MemAllocAdds(p, n);
    FreeNewest(p, r.pool, r.ptr.value);
  }

  /** Releasing the one block an allocation added to a valid pool gives back the alloc list and both totals. */
  lemma FreeNewest(p: Pool, q: Pool, mem: nat)
    requires Valid(p) && Valid(q) && mem >= H && HasAddr(q.alloc, mem - H)
    requires q.base == p.base && q.poolSize == p.poolSize
    requires forall b :: b in q.alloc && b.addr == mem - H ==> multiset(q.alloc) == multiset(p.alloc) + multiset{b}
    ensures var p' := MemFree(q, mem);
      && Valid(p')
      && p'.alloc == p.alloc
      && MemGetTotalMemFree(p') == MemGetTotalMemFree(p)
      && MemGetTotalMemAlloc(p') == MemGetTotalMemAlloc(p)
  {
    var t := q.alloc[IndexOf(q.alloc, mem - H)];
    AllocBack(p, q, mem, t);
    RoundTotals(p, q, mem);
  }

  /** Releasing a block that restores the alloc list restores both totals and keeps the pool valid. */
  lemma RoundTotals(p: Pool, q: Pool, mem: nat)
    requires Valid(p) && Valid(q) && mem >= H && HasAddr(q.alloc, HeaderAddr(mem))
    requires q.base == p.base && q.poolSize == p.poolSize
    requires MemFree(q, mem).alloc == p.alloc
    ensures var p' := MemFree(q, mem);
      && Valid(p')
      && MemGetTotalMemFree(p') == MemGetTotalMemFree(p)
      && MemGetTotalMemAlloc(p') == MemGetTotalMemAlloc(p)
  {
    var p' := MemFree(q, mem);
    MemFreeValid(q, mem);
    MemTotals(p);
    MemTotals(p');
  }

  /** Freeing the block an allocation added leaves the alloc list it started from. */
  lemma AllocBack(p: Pool, q: Pool, mem: nat, t: Block)
    requires StrictlySorted(p.alloc) && StrictlySorted(q.alloc) && mem >= H
    requires t in q.alloc && t.addr == mem - H
    requires multiset(q.alloc) == multiset(p.alloc) + multiset{t}
    ensures HasAddr(q.alloc, HeaderAddr(mem))
    ensures MemFree(q, mem).alloc == p.alloc
  {
    IndexOfMember(q.alloc, t);
    var rest := RemoveFromList(q.alloc, t.addr).list;
    assert MemFree(q, mem).alloc == rest;
    RemoveMember(q.alloc, t);
    assert multiset(rest) == multiset(q.alloc) - multiset{t} == multiset(p.alloc);
    SortedEqual(rest, p.alloc);
  }

  /**
    What the diagnostics report on a valid pool: the free total is the pool
    size less the footprint of the allocated blocks, and the alloc total
    counts each allocated block's flag bit as one more byte, so the two
    totals add up to the pool size plus the number of allocated blocks.
  */
  lemma MemTotals(p: Pool)
    requires Valid(p)
    ensures MemGetTotalMemFree(p) + Sum(p.alloc) == p.poolSize
    ensures MemGetTotalMemAlloc(p) == Sum(p.alloc) + MemGetTotalAllocCount(p)
    ensures MemGetTotalMemFree(p) + MemGetTotalMemAlloc(p) == p.poolSize + MemGetTotalAllocCount(p)
  {
    RawSumFlags(p.heap);
    RawSumFlags(p.free);
    RawSumFlags(p.alloc);
  }

  /** The drain loop moves every free block into the heap: the heap ends up with both lists' blocks, all flag-clear. */
  lemma {:induction false} DrainKeeps(m: multiset<Block>, base: nat, size: nat, free: seq<Block>, heap: seq<Block>)
    requires StrictlySorted(heap) && AllFree(heap) && AllFree(free)
    requires Placed(m + multiset(heap) + multiset(free), base, size)
    ensures multiset(Drain(free, heap)) == multiset(heap) + multiset(free)
    ensures AllFree(Drain(free, heap))
    decreases |free|
  {
    if |free| > 0 {
      DrainStep(m, base, size, free, heap);
      DrainKeeps(m, base, size, free[1..], InsertToList(heap, free[0]).list);
    }
  }

  /** One round of the drain loop: the free head joins the heap, and the pool's blocks stay as they were. */
  lemma DrainStep(m: multiset<Block>, base: nat, size: nat, free: seq<Block>, heap: seq<Block>)
    requires |free| > 0
    requires StrictlySorted(heap) && AllFree(heap) && AllFree(free)
    requires Placed(m + multiset(heap) + multiset(free), base, size)
    ensures var heap' := InsertToList(heap, free[0]).list;
      && StrictlySorted(heap') && AllFree(heap') && AllFree(free[1..])
      && multiset(heap') + multiset(free[1..]) == multiset(heap) + multiset(free)
      && Placed(m + multiset(heap') + multiset(free[1..]), base, size)
  {
    var b := free[0];
    assert !HasAddr(heap, b.addr) by {
      ListsApart(m + multiset(heap) + multiset(free), base, size, free, heap);
    }
    PutOn(heap, b);
    FreeRest(free);
    HeadSplit(free);
    var heap' := InsertToList(heap, b).list;
    assert m + multiset(heap') + multiset(free[1..]) == m + multiset(heap) + multiset(free);
  }

  /** A pool fresh from MemInitPool, with nothing freed or allocated before, passes the MEM_DEBUG check of MemDeInitPool. */
  lemma InitThenCheck(p: Pool, mem: nat, size: nat)
    requires size >= H && size % ALIGNMENT == 0 && p.free == [] && p.alloc == []
    ensures DeInitCheck(MemInitPool(p, mem, size).0)
  {
    DeInitCheckIff(MemInitPool(p, mem, size).0);
  }

  /** The MEM_DEBUG check of MemDeInitPool passes on a valid pool exactly when nothing is allocated. */
  lemma DeInitCheckIff(p: Pool)
    requires Valid(p)
    ensures DeInitCheck(p) <==> p.alloc == []
  {
    assert Blocks(p) == multiset(p.alloc) + multiset(p.heap) + multiset(p.free);
    DeInitSum(multiset(p.alloc), p.base, p.poolSize, p.free, p.heap);
  }

  /** What the check adds up: the heap after coalescing and draining holds the footprint of the heap and the free list. */
  lemma DeInitSum(m: multiset<Block>, base: nat, size: nat, free: seq<Block>, heap: seq<Block>)
    requires StrictlySorted(heap) && AllFree(heap) && AllFree(free)
    requires Placed(m + multiset(heap) + multiset(free), base, size)
    ensures RawSum(Drain(MemCoalesceBlocks(free).list, heap)) == Sum(heap) + Sum(free)
  {
    CoalesceKeeps(m + multiset(heap), base, size, free);
    DrainSum(m, base, size, MemCoalesceBlocks(free).list, heap);
  }

  /** After the drain loop the heap's raw total is the footprint of both lists. */
  lemma DrainSum(m: multiset<Block>, base: nat, size: nat, free: seq<Block>, heap: seq<Block>)
    requires StrictlySorted(heap) && AllFree(heap) && AllFree(free)
    requires Placed(m + multiset(heap) + multiset(free), base, size)
    ensures RawSum(Drain(free, heap)) == Sum(heap) + Sum(free)
  {
    DrainKeeps(m, base, size, free, heap);
    var d := Drain(free, heap);
    SumPermutation(d, heap + free);
    SumConcat(heap, free);
    RawSumFlags(d);
  }

  /**
    The MIN_BLOCK_SIZE wrap on a whole allocation: a request of 2^64 - 16
    bytes on a heap holding one 16-byte block.  The model returns NULL;
    the C test, whose bound wraps to 0, accepts the block and hands it out
    whole.
  */
  lemma WrappedRequestRefused()
    ensures var p := Pool(0, 32, [Block(0, 16, false)], [], []);
      var req := SIZE_MODULUS - H;
      && AlignWord(req) == req == Align(req)
      && MemAlloc(p, req).ptr.None?
      && FitsWord(p.heap[0], req) && !SplitsWord(p.heap[0], req)
  {
    var p := Pool(0, 32, [Block(0, 16, false)], [], []);
    var req := SIZE_MODULUS - H;
    FitsWordWraps(p.heap[0], req);
    assert Refill(p, req) == p;
    AllocNone(p, req);
  }
}
