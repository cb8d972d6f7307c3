/**
  Coalescing of the free list (memmgr/memmgr.c MergeBlocks,
  MemCoalesceBlocks): one pass over the list in which each node swallows
  every physically contiguous successor, while the pass picks a block to
  refill the heap with.
*/
module Coalesce {
  import opened Header
  import opened BlockList
  import opened Layout
  import opened Wrappers

  /**
    MergeBlocks(b1, b2): when `b2` starts right after `b1`'s payload, `b1`
    grows by `b2`'s word plus one header and takes over `b2`'s link;
    otherwise nothing happens (None stands for the return value 0).
  */
  function MergeBlocks(b1: Block, b2: Block): (r: Option<Block>)
    ensures r.Some? <==> Contiguous(b1, b2)
    ensures r.Some? ==> r.value.addr == b1.addr
    ensures r.Some? && !b1.inUse && !b2.inUse && b1.size % 2 == 0 && b2.size % 2 == 0 ==>
              && !r.value.inUse
              && End(b1) == b2.addr
              && End(r.value) == End(b2)
              && Footprint(r.value) == Footprint(b1) + Footprint(b2)
  {
    if Contiguous(b1, b2) then Some(Decode(b1.addr, Word(b1) + Word(b2) + H)) else None
  }

  /** No list node is physically followed by its list successor. */
  predicate NoContiguousNeighbours(s: seq<Block>)
  {
    forall i :: 0 <= i < |s| - 1 ==> !Contiguous(s[i], s[i + 1])
  }

  /** A node after its merges, and the nodes still after it. */
  datatype Run = Run(head: Block, rest: seq<Block>)

  /** `while (MergeBlocks(tmp, tmp->next));`: `tmp` swallows its contiguous successors one by one. */
  function Absorb(tmp: Block, rest: seq<Block>): (r: Run)
    ensures r.head.addr == tmp.addr
    ensures |r.rest| <= |rest|
    ensures |r.rest| > 0 ==> !Contiguous(r.head, r.rest[0])
    ensures r.rest == rest ==> r.head == tmp
    decreases |rest|
  {
    if |rest| > 0 && Contiguous(tmp, rest[0]) then
      Absorb(MergeBlocks(tmp, rest[0]).value, rest[1..])
    else
      Run(tmp, rest)
  }

  /** What Absorb leaves is the tail of the run it started from, and a sorted run stays sorted. */
  lemma {:induction false} AbsorbSorted(tmp: Block, rest: seq<Block>)
    ensures var r := Absorb(tmp, rest);
      && r.rest == rest[|rest| - |r.rest|..]
      && (StrictlySorted([tmp] + rest) ==> StrictlySorted([r.head] + r.rest))
    decreases |rest|
  {
    if |rest| > 0 && Contiguous(tmp, rest[0]) {
      var c := MergeBlocks(tmp, rest[0]).value;
      SortedSkip(tmp, rest, c);
      AbsorbSorted(c, rest[1..]);
      var r := Absorb(c, rest[1..]);
      assert rest[1..][|rest| - 1 - |r.rest|..] == rest[|rest| - |r.rest|..];
    }
  }

  /** Dropping the second node of a sorted list and renaming the first at the same address keeps it sorted. */
  lemma SortedSkip(tmp: Block, rest: seq<Block>, c: Block)
    requires |rest| > 0 && c.addr == tmp.addr
    ensures StrictlySorted([tmp] + rest) ==> StrictlySorted([c] + rest[1..])
  {
    SortedCons(tmp, rest);
    SortedCons(rest[0], rest[1..]);
    assert rest == [rest[0]] + rest[1..];
    SortedCons(c, rest[1..]);
    if StrictlySorted([tmp] + rest) {
      assert forall i :: 0 <= i < |rest[1..]| ==> rest[1..][i] == rest[i + 1];
    }
  }

  /** The coalesced list, and the block chosen to refill the heap (None for NULL). */
  datatype Coalesced = Coalesced(list: seq<Block>, best: Option<Block>)

  /**
    MemCoalesceBlocks(head).  `tmp_heap` starts at the head; after each node
    has absorbed its successors it replaces `tmp_heap` when its word is
    strictly larger.  The loop stops as soon as `tmp->next` is NULL, so a
    last node that absorbed nothing is never compared.
  */
  function MemCoalesceBlocks(s: seq<Block>): (r: Coalesced)
    ensures r.best.None? <==> |s| == 0
    ensures |r.list| <= |s|
    ensures |s| > 0 ==> |r.list| > 0 && r.list[0].addr == s[0].addr
  {
    if |s| == 0 then Coalesced([], None)
    else
      var first := Absorb(s[0], s[1..]);
      var tail := CoalesceTail(first.rest, first.head);
      Coalesced([first.head] + tail.list, tail.best)
  }

  /** The loop from the second node on; `best` is the current `tmp_heap`. */
  function CoalesceTail(s: seq<Block>, best: Block): (r: Coalesced)
    ensures r.best.Some?
    ensures |r.list| <= |s|
    ensures |s| > 0 ==> |r.list| > 0 && r.list[0].addr == s[0].addr
    decreases |s|
  {
    if |s| <= 1 then Coalesced(s, Some(best))
    else
      var run := Absorb(s[0], s[1..]);
      var best' := if Word(run.head) > Word(best) then run.head else best;
      var tail := CoalesceTail(run.rest, best');
      Coalesced([run.head] + tail.list, tail.best)
  }

  /** `tmp_heap` is `best` or a node of the coalesced list, and its word is at least that of every node but the last. */
  lemma {:induction false} TailBest(s: seq<Block>, best: Block)
    ensures var r := CoalesceTail(s, best);
      && (r.best.value == best || r.best.value in r.list)
      && Word(best) <= Word(r.best.value)
      && forall i :: 0 <= i < |r.list| - 1 ==> Word(r.list[i]) <= Word(r.best.value)
    decreases |s|
  {
    if |s| > 1 {
      var run := Absorb(s[0], s[1..]);
      var best' := if Word(run.head) > Word(best) then run.head else best;
      var tail := CoalesceTail(run.rest, best');
      TailBest(run.rest, best');
      var list := [run.head] + tail.list;
      assert CoalesceTail(s, best) == Coalesced(list, tail.best);
      forall i | 0 <= i < |list| - 1
        ensures Word(list[i]) <= Word(tail.best.value)
      {
        if i > 0 {
          assert list[i] == tail.list[i - 1];
        }
      }
    }
  }

  /** After the loop no node of the list is physically followed by its successor. */
  lemma {:induction false} TailNoNeighbours(s: seq<Block>, best: Block)
    ensures NoContiguousNeighbours(CoalesceTail(s, best).list)
    decreases |s|
  {
    if |s| > 1 {
      var run := Absorb(s[0], s[1..]);
      var best' := if Word(run.head) > Word(best) then run.head else best;
      var tail := CoalesceTail(run.rest, best');
      TailNoNeighbours(run.rest, best');
      var list := [run.head] + tail.list;
      assert CoalesceTail(s, best).list == list;
      forall i | 0 <= i < |list| - 1
        ensures !Contiguous(list[i], list[i + 1])
      {
        assert list[i + 1] == tail.list[i];
        if i > 0 {
          assert list[i] == tail.list[i - 1];
        }
      }
    } else if |s| == 1 {
      assert CoalesceTail(s, best).list == s;
    }
  }

  /** The loop keeps a sorted list sorted. */
  lemma {:induction false} TailSorted(s: seq<Block>, best: Block)
    requires StrictlySorted(s)
    ensures StrictlySorted(CoalesceTail(s, best).list)
    decreases |s|
  {
    if |s| > 1 {
      var run := Absorb(s[0], s[1..]);
      var best' := if Word(run.head) > Word(best) then run.head else best;
      var tail := CoalesceTail(run.rest, best');
      assert CoalesceTail(s, best).list == [run.head] + tail.list;
      RunSorted(s);
      TailSorted(run.rest, best');
      SortedHead(run.head, run.rest, tail.list);
    }
  }

  /** The first run of a sorted list and what follows it stay sorted. */
  lemma RunSorted(s: seq<Block>)
    requires StrictlySorted(s) && |s| > 0
    ensures var run := Absorb(s[0], s[1..]);
      StrictlySorted([run.head] + run.rest) && StrictlySorted(run.rest)
  {
    var run := Absorb(s[0], s[1..]);
    assert s == [s[0]] + s[1..];
    AbsorbSorted(s[0], s[1..]);
    SortedTail(run.head, run.rest);
  }

  /**
    What the pass promises: the chosen block is a node of the coalesced list
    whose word is at least that of every node but the last, and no node is
    physically followed by its successor any more.
  */
  lemma CoalesceBest(s: seq<Block>)
    requires |s| > 0
    ensures var r := MemCoalesceBlocks(s);
      && r.best.value in r.list
      && (forall i :: 0 <= i < |r.list| - 1 ==> Word(r.list[i]) <= Word(r.best.value))
      && NoContiguousNeighbours(r.list)
  {
    var first := Absorb(s[0], s[1..]);
    var tail := CoalesceTail(first.rest, first.head);
    var list := [first.head] + tail.list;
    assert MemCoalesceBlocks(s) == Coalesced(list, tail.best);
    TailBest(first.rest, first.head);
    TailNoNeighbours(first.rest, first.head);
    forall i | 0 <= i < |list| - 1
      ensures Word(list[i]) <= Word(tail.best.value) && !Contiguous(list[i], list[i + 1])
    {
      assert list[i + 1] == tail.list[i];
      if i > 0 {
        assert list[i] == tail.list[i - 1];
      }
    }
  }

  /** The pass keeps a sorted list sorted. */
  lemma CoalesceSorted(s: seq<Block>)
    ensures StrictlySorted(s) ==> StrictlySorted(MemCoalesceBlocks(s).list)
  {
    if |s| > 0 && StrictlySorted(s) {
      var first := Absorb(s[0], s[1..]);
      var tail := CoalesceTail(first.rest, first.head);
      assert MemCoalesceBlocks(s).list == [first.head] + tail.list;
      RunSorted(s);
      TailSorted(first.rest, first.head);
      SortedHead(first.head, first.rest, tail.list);
    }
  }

  /** A list without contiguous neighbours comes out of the pass unchanged: coalescing is idempotent. */
  lemma {:induction false} TailIdle(s: seq<Block>, best: Block)
    requires NoContiguousNeighbours(s)
    ensures CoalesceTail(s, best).list == s
    decreases |s|
  {
    if |s| > 1 {
      assert !Contiguous(s[0], s[1]);
      var run := Absorb(s[0], s[1..]);
      assert run == Run(s[0], s[1..]);
      var best' := if Word(run.head) > Word(best) then run.head else best;
      forall i | 0 <= i < |s[1..]| - 1
        ensures !Contiguous(s[1..][i], s[1..][i + 1])
      {
        assert s[1..][i] == s[i + 1] && s[1..][i + 1] == s[i + 2];
      }
      TailIdle(s[1..], best');
      assert s == [s[0]] + s[1..];
    }
  }

  /** Coalescing a list without contiguous neighbours leaves it as it is, so a second pass changes nothing. */
  lemma CoalesceIdle(s: seq<Block>)
    requires NoContiguousNeighbours(s)
    ensures MemCoalesceBlocks(s).list == s
  {
    if |s| > 0 {
      if |s| > 1 {
        assert !Contiguous(s[0], s[1]);
      }
      assert Absorb(s[0], s[1..]) == Run(s[0], s[1..]);
      forall i | 0 <= i < |s[1..]| - 1
        ensures !Contiguous(s[1..][i], s[1..][i + 1])
      {
        assert s[1..][i] == s[i + 1] && s[1..][i + 1] == s[i + 2];
      }
      TailIdle(s[1..], s[0]);
      assert s == [s[0]] + s[1..];
    }
  }

  /** Coalescing twice gives the same list as coalescing once. */
  lemma CoalesceTwice(s: seq<Block>)
    ensures MemCoalesceBlocks(MemCoalesceBlocks(s).list).list == MemCoalesceBlocks(s).list
  {
    if |s| > 0 {
      CoalesceBest(s);
      CoalesceIdle(MemCoalesceBlocks(s).list);
    }
  }

  /**
    An example of the uncompared last node: with two apart free blocks, a
    16-byte head and a 64-byte tail, the pass returns the head, although
    the tail is the larger block.
  */
  lemma LastNodeNotCompared()
    ensures var s := [Block(0, 16, false), Block(100, 64, false)];
      && MemCoalesceBlocks(s) == Coalesced(s, Some(Block(0, 16, false)))
      && Word(s[1]) > Word(MemCoalesceBlocks(s).best.value)
  {
    var s := [Block(0, 16, false), Block(100, 64, false)];
    assert !Contiguous(s[0], s[1]);
    assert s[1..] == [Block(100, 64, false)];
    assert Absorb(s[0], s[1..]) == Run(s[0], s[1..]);
  }

  /**
    On a list without contiguous neighbours the loop stops before the last
    node: `tmp_heap` ends as `best` or as one of the nodes before the last.
  */
  lemma {:induction false} TailSkipsLast(s: seq<Block>, best: Block)
    requires |s| > 0 && NoContiguousNeighbours(s)
    ensures var b := CoalesceTail(s, best).best.value;
      b == best || exists i :: 0 <= i < |s| - 1 && s[i] == b
    decreases |s|
  {
    if |s| > 1 {
      assert !Contiguous(s[0], s[1]);
      var run := Absorb(s[0], s[1..]);
      assert run == Run(s[0], s[1..]);
      var best' := if Word(run.head) > Word(best) then run.head else best;
      forall i | 0 <= i < |s[1..]| - 1
        ensures !Contiguous(s[1..][i], s[1..][i + 1])
      {
        assert s[1..][i] == s[i + 1] && s[1..][i + 1] == s[i + 2];
      }
      TailSkipsLast(s[1..], best');
      var b := CoalesceTail(s[1..], best').best.value;
      assert CoalesceTail(s, best).best.value == b;
      if b != best {
        if b == best' {
          assert s[0] == b;
        } else {
          var i :| 0 <= i < |s[1..]| - 1 && s[1..][i] == b;
          assert s[i + 1] == b;
        }
      }
    }
  }

  /**
    A last node that merged nothing is never compared: on a list of two or
    more nodes without contiguous neighbours, the pass returns one of the
    nodes before the last, whatever the last node's size.
  */
  lemma LastUncompared(s: seq<Block>)
    requires |s| > 1 && NoContiguousNeighbours(s)
    ensures exists i :: 0 <= i < |s| - 1 && s[i] == MemCoalesceBlocks(s).best.value
  {
    assert !Contiguous(s[0], s[1]);
    assert Absorb(s[0], s[1..]) == Run(s[0], s[1..]);
    forall i | 0 <= i < |s[1..]| - 1
      ensures !Contiguous(s[1..][i], s[1..][i + 1])
    {
      assert s[1..][i] == s[i + 1] && s[1..][i + 1] == s[i + 2];
    }
    TailSkipsLast(s[1..], s[0]);
    var b := CoalesceTail(s[1..], s[0]).best.value;
    assert MemCoalesceBlocks(s).best.value == b;
    if b != s[0] {
      var i :| 0 <= i < |s[1..]| - 1 && s[1..][i] == b;
      assert s[i + 1] == b;
    }
  }

  /** One merge step of Absorb keeps the layout of the whole pool. */
  lemma MergeStep(m: multiset<Block>, base: nat, size: nat, tmp: Block, rest: seq<Block>)
    requires |rest| > 0 && Contiguous(tmp, rest[0])
    requires !tmp.inUse && AllFree(rest)
    requires Placed(m + multiset{tmp} + multiset(rest), base, size)
    ensures !MergeBlocks(tmp, rest[0]).value.inUse && AllFree(rest[1..])
    ensures Placed(m + multiset{MergeBlocks(tmp, rest[0]).value} + multiset(rest[1..]), base, size)
  {
    var all := m + multiset{tmp} + multiset(rest);
    var c := MergeBlocks(tmp, rest[0]).value;
    MergeCount(m, tmp, rest, c);
    PlacedBlock(all, base, size, tmp);
    PlacedBlock(all, base, size, rest[0]);
    MergedAligned(tmp, rest[0]);
    MergeInside(all, base, size, tmp, rest[0], c);
    FreeRest(rest);
  }

  /** Two free aligned contiguous blocks merge into a free aligned block spanning both. */
  lemma MergedAligned(b1: Block, b2: Block)
    requires Contiguous(b1, b2) && !b1.inUse && !b2.inUse
    requires b1.size % ALIGNMENT == 0 && b2.size % ALIGNMENT == 0
    ensures var c := MergeBlocks(b1, b2).value;
      && !c.inUse && c.size % ALIGNMENT == 0 && c.addr == b1.addr
      && End(b1) == b2.addr && End(c) == End(b2)
  {
  }

  /** The tail of a free list is free. */
  lemma FreeRest(s: seq<Block>)
    requires |s| > 0 && AllFree(s)
    ensures AllFree(s[1..])
  {
    assert forall i :: 0 <= i < |s[1..]| ==> s[1..][i] == s[i + 1];
  }

  /** Merging the first node of `rest` into `tmp` trades the two for the merged block. */
  lemma MergeCount(m: multiset<Block>, tmp: Block, rest: seq<Block>, c: Block)
    requires |rest| > 0 && tmp.addr < rest[0].addr
    ensures var all := m + multiset{tmp} + multiset(rest);
      && tmp in all && rest[0] in all && tmp != rest[0]
      && all - multiset{tmp} - multiset{rest[0]} + multiset{c} == m + multiset{c} + multiset(rest[1..])
  {
    HeadSplit(rest);
  }

  /** Absorbing keeps the layout of the whole pool, with flags clear and sizes aligned. */
  lemma {:induction false} AbsorbPlaced(m: multiset<Block>, base: nat, size: nat, tmp: Block, rest: seq<Block>)
    requires !tmp.inUse && AllFree(rest)
    requires Placed(m + multiset{tmp} + multiset(rest), base, size)
    ensures var r := Absorb(tmp, rest);
      && !r.head.inUse && AllFree(r.rest)
      && Placed(m + multiset{r.head} + multiset(r.rest), base, size)
    decreases |rest|
  {
    if |rest| > 0 && Contiguous(tmp, rest[0]) {
      MergeStep(m, base, size, tmp, rest);
      AbsorbPlaced(m, base, size, MergeBlocks(tmp, rest[0]).value, rest[1..]);
    }
  }

  /** Absorbing keeps the footprint of the run and its address order. */
  lemma {:induction false} AbsorbSum(tmp: Block, rest: seq<Block>)
    requires !tmp.inUse && AllFree(rest)
    requires tmp.size % 2 == 0 && forall i :: 0 <= i < |rest| ==> rest[i].size % 2 == 0
    ensures var r := Absorb(tmp, rest);
      Footprint(r.head) + Sum(r.rest) == Footprint(tmp) + Sum(rest)
    decreases |rest|
  {
    if |rest| > 0 && Contiguous(tmp, rest[0]) {
      var c := MergeBlocks(tmp, rest[0]).value;
      assert rest == [rest[0]] + rest[1..];
      AbsorbSum(c, rest[1..]);
    }
  }

  /** The coalescing pass keeps flags clear, the layout of the whole pool and the footprint. */
  lemma CoalesceKeeps(m: multiset<Block>, base: nat, size: nat, s: seq<Block>)
    requires AllFree(s)
    requires Placed(m + multiset(s), base, size)
    ensures AllFree(MemCoalesceBlocks(s).list)
    ensures Placed(m + multiset(MemCoalesceBlocks(s).list), base, size)
    ensures Sum(MemCoalesceBlocks(s).list) == Sum(s)
  {
    PlacedSizes(m + multiset(s), base, size, s);
    CoalescePlaced(m, base, size, s);
    CoalesceSum(s);
  }

  /** The first node and the rest of a list, as multisets and footprints. */
  lemma HeadSplit(s: seq<Block>)
    requires |s| > 0
    ensures multiset(s) == multiset{s[0]} + multiset(s[1..])
    ensures Sum(s) == Footprint(s[0]) + Sum(s[1..])
  {
    assert s == [s[0]] + s[1..];
  }

  /** The coalescing pass keeps flags clear and the layout of the whole pool. */
  lemma CoalescePlaced(m: multiset<Block>, base: nat, size: nat, s: seq<Block>)
    requires AllFree(s)
    requires Placed(m + multiset(s), base, size)
    ensures AllFree(MemCoalesceBlocks(s).list)
    ensures Placed(m + multiset(MemCoalesceBlocks(s).list), base, size)
  {
    if |s| > 0 {
      var first := Absorb(s[0], s[1..]);
      var tail := CoalesceTail(first.rest, first.head).list;
      assert MemCoalesceBlocks(s).list == [first.head] + tail;
      HeadSplit(s);
      assert m + multiset(s) == m + multiset{s[0]} + multiset(s[1..]);
      AbsorbPlaced(m, base, size, s[0], s[1..]);
      TailPlaced(m + multiset{first.head}, base, size, first.rest, first.head);
      ConsPlaced(m, base, size, first.head, tail);
    }
  }

  /** The coalescing pass keeps the footprint of a free list whose sizes leave bit 0 clear. */
  lemma CoalesceSum(s: seq<Block>)
    requires AllFree(s) && forall i :: 0 <= i < |s| ==> s[i].size % 2 == 0
    ensures Sum(MemCoalesceBlocks(s).list) == Sum(s)
  {
    if |s| > 0 {
      var first := Absorb(s[0], s[1..]);
      var tail := CoalesceTail(first.rest, first.head).list;
      assert MemCoalesceBlocks(s).list == [first.head] + tail;
      HeadSplit(s);
      AbsorbSum(s[0], s[1..]);
      AbsorbSuffix(s);
      TailSum(first.rest, first.head);
      SumConcat([first.head], tail);
    }
  }

  /** Blocks of a list drawn from a placed multiset have aligned, hence even, sizes. */
  lemma PlacedSizes(m: multiset<Block>, base: nat, size: nat, s: seq<Block>)
    requires Placed(m, base, size)
    requires multiset(s) <= m
    ensures forall i :: 0 <= i < |s| ==> s[i].size % ALIGNMENT == 0 && s[i].size % 2 == 0
  {
    forall i | 0 <= i < |s|
      ensures s[i].size % ALIGNMENT == 0 && s[i].size % 2 == 0
    {
      assert s[i] in multiset(s);
    }
  }

  /** The loop after the first node keeps the layout of the whole pool, with flags clear. */
  lemma {:induction false} TailPlaced(m: multiset<Block>, base: nat, size: nat, s: seq<Block>, best: Block)
    requires AllFree(s)
    requires Placed(m + multiset(s), base, size)
    ensures AllFree(CoalesceTail(s, best).list)
    ensures Placed(m + multiset(CoalesceTail(s, best).list), base, size)
    decreases |s|
  {
    if |s| > 1 {
      var run := Absorb(s[0], s[1..]);
      var best' := if Word(run.head) > Word(best) then run.head else best;
      var tail := CoalesceTail(run.rest, best').list;
      assert CoalesceTail(s, best).list == [run.head] + tail;
      TailPlacedStep(m, base, size, s);
      TailPlaced(m + multiset{run.head}, base, size, run.rest, best');
      ConsPlaced(m, base, size, run.head, tail);
    }
  }

  /** Putting a free block in front of a free list moves it from the rest of the pool into the list. */
  lemma ConsPlaced(m: multiset<Block>, base: nat, size: nat, h: Block, t: seq<Block>)
    requires !h.inUse && AllFree(t)
    requires Placed(m + multiset{h} + multiset(t), base, size)
    ensures AllFree([h] + t)
    ensures Placed(m + multiset([h] + t), base, size)
  {
    assert m + multiset{h} + multiset(t) == m + multiset([h] + t);
  }

  lemma TailPlacedStep(m: multiset<Block>, base: nat, size: nat, s: seq<Block>)
    requires |s| > 1 && AllFree(s)
    requires Placed(m + multiset(s), base, size)
    ensures var run := Absorb(s[0], s[1..]);
      && !run.head.inUse && AllFree(run.rest)
      && Placed(m + multiset{run.head} + multiset(run.rest), base, size)
  {
    assert s == [s[0]] + s[1..];
    assert m + multiset(s) == m + multiset{s[0]} + multiset(s[1..]);
    AbsorbPlaced(m, base, size, s[0], s[1..]);
  }

  /** The loop after the first node keeps the footprint. */
  lemma {:induction false} TailSum(s: seq<Block>, best: Block)
    requires AllFree(s) && forall i :: 0 <= i < |s| ==> s[i].size % 2 == 0
    ensures Sum(CoalesceTail(s, best).list) == Sum(s)
    decreases |s|
  {
    if |s| > 1 {
      var run := Absorb(s[0], s[1..]);
      var best' := if Word(run.head) > Word(best) then run.head else best;
      var tail := CoalesceTail(run.rest, best').list;
      assert CoalesceTail(s, best).list == [run.head] + tail;
      TailSumStep(s);
      AbsorbSuffix(s);
      TailSum(run.rest, best');
      SumConcat([run.head], tail);
    }
  }

  lemma TailSumStep(s: seq<Block>)
    requires |s| > 1 && AllFree(s) && forall i :: 0 <= i < |s| ==> s[i].size % 2 == 0
    ensures var run := Absorb(s[0], s[1..]);
      Footprint(run.head) + Sum(run.rest) == Sum(s)
  {
    assert s == [s[0]] + s[1..];
    AbsorbSum(s[0], s[1..]);
  }

  /** What Absorb leaves is a suffix of the list. */
  lemma AbsorbSuffix(s: seq<Block>)
    requires |s| > 0
    ensures var run := Absorb(s[0], s[1..]);
      && (forall i :: 0 <= i < |run.rest| ==> run.rest[i] == s[|s| - |run.rest| + i])
      && run.head.addr == s[0].addr
  {
    AbsorbSorted(s[0], s[1..]);
  }

  /**
    A node followed by the coalesced rest of a sorted run stays sorted: the
    coalesced rest is sorted and starts at the address the rest started at.
  */
  lemma SortedHead(h: Block, rest: seq<Block>, tail: seq<Block>)
    requires StrictlySorted([h] + rest) && StrictlySorted(tail)
    requires |rest| > 0 ==> |tail| > 0 && tail[0].addr == rest[0].addr
    requires |rest| == 0 ==> |tail| == 0
    ensures StrictlySorted([h] + tail)
  {
    SortedTail(h, rest);
    forall i | 0 <= i < |tail|
      ensures h.addr < tail[i].addr
    {
      assert h.addr < rest[0].addr;
      if i > 0 {
        assert tail[0].addr < tail[i].addr;
      }
    }
    SortedBuild(h, tail);
  }

}
