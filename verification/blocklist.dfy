/**
  Intrusive singly-linked block lists (memmgr/memmgr.c RemoveFromList,
  InsertToList; memmgr.c RemoveFromList) and the folds over them.

  A list is the sequence of blocks reached from its head by following
  `next`; a block's `next` is the block after it in the sequence, and a
  block that is in no list has no successor (NULL).  Blocks are identified by
  address, as the C code compares pointers.
*/
module BlockList {
  import opened Header

  /** Some block of `s` sits at address `a`. */
  predicate HasAddr(s: seq<Block>, a: nat)
  {
    exists i :: 0 <= i < |s| && s[i].addr == a
  }

  /** Position of the first block of `s` at address `a`. */
  function IndexOf(s: seq<Block>, a: nat): (k: nat)
    requires HasAddr(s, a)
    ensures k < |s| && s[k].addr == a
    ensures forall j :: 0 <= j < k ==> s[j].addr != a
  {
    if s[0].addr == a then 0
    else
      assert HasAddr(s[1..], a) by {
        var i :| 0 <= i < |s| && s[i].addr == a;
        assert s[1..][i - 1].addr == a;
      }
      1 + IndexOf(s[1..], a)
  }

  /** Addresses strictly increase along the list. */
  predicate StrictlySorted(s: seq<Block>)
  {
    forall i, j :: 0 <= i < j < |s| ==> s[i].addr < s[j].addr
  }

  /** No two blocks of the list share an address. */
  predicate UniqueAddrs(s: seq<Block>)
  {
    forall i, j :: 0 <= i < |s| && 0 <= j < |s| && i != j ==> s[i].addr != s[j].addr
  }

  predicate AllFree(s: seq<Block>)
  {
    forall i :: 0 <= i < |s| ==> !s[i].inUse
  }

  predicate AllInUse(s: seq<Block>)
  {
    forall i :: 0 <= i < |s| ==> s[i].inUse
  }

  /** The list after an update, and the C function's return code (1 or 0). */
  datatype Linked = Linked(list: seq<Block>, code: int)

  /**
    RemoveFromList(head, block): unlinks the first block at address `a`,
    checking the head first and then each `tmp->next`; returns 1 when it
    found one and 0, leaving the list alone, when it did not.
  */
  function RemoveFromList(s: seq<Block>, a: nat): (r: Linked)
    ensures HasAddr(s, a) ==> r.code == 1 && |r.list| == |s| - 1
    ensures !HasAddr(s, a) ==> r == Linked(s, 0)
  {
    if |s| == 0 then Linked(s, 0)
    else if s[0].addr == a then Linked(s[1..], 1)
    else
      var rest := RemoveFromList(s[1..], a);
      HasAddrTail(s, a);
      if rest.code == 0 then
        assert [s[0]] + s[1..] == s;
        Linked(s, 0)
      else
        Linked([s[0]] + rest.list, rest.code)
  }

  /** What removal does to a sorted list: exactly the block at `a` goes, the rest keep their order. */
  lemma RemoveKeepsSorted(s: seq<Block>, a: nat)
    requires StrictlySorted(s)
    ensures StrictlySorted(RemoveFromList(s, a).list)
    ensures HasAddr(s, a) ==> multiset(RemoveFromList(s, a).list) == multiset(s) - multiset{s[IndexOf(s, a)]}
    ensures HasAddr(s, a) ==> !HasAddr(RemoveFromList(s, a).list, a)
  {
    if HasAddr(s, a) {
      var k := IndexOf(s, a);
      RemoveAt(s, k);
      DeleteAt(s, k);
    }
  }

  /** Deleting position `k` keeps a sorted list sorted and drops exactly `s[k]`. */
  lemma DeleteAt(s: seq<Block>, k: nat)
    requires StrictlySorted(s) && k < |s|
    ensures StrictlySorted(s[..k] + s[k + 1..])
    ensures multiset(s[..k] + s[k + 1..]) == multiset(s) - multiset{s[k]}
    ensures !HasAddr(s[..k] + s[k + 1..], s[k].addr)
  {
    var r := s[..k] + s[k + 1..];
    assert s == s[..k] + [s[k]] + s[k + 1..];
    forall i, j | 0 <= i < j < |r|
      ensures r[i].addr < r[j].addr
    {
      var i' := if i < k then i else i + 1;
      var j' := if j < k then j else j + 1;
      assert r[i] == s[i'] && r[j] == s[j'];
    }
    forall i | 0 <= i < |r|
      ensures r[i].addr != s[k].addr
    {
      var i' := if i < k then i else i + 1;
      assert r[i] == s[i'];
    }
  }

  /**
    InsertToList(head, block): an empty list becomes the block alone; a block
    below the head becomes the new head; otherwise the block is spliced after
    the first `tmp` with tmp < block < tmp->next, or after a tail below it.
    Returns 1 when it linked the block and 0, leaving the list alone, when no
    such place exists.
  */
  function InsertToList(s: seq<Block>, b: Block): (r: Linked)
    ensures r.code == 0 ==> r.list == s
    ensures r.code == 1 ==> multiset(r.list) == multiset(s) + multiset{b}
    ensures r.code == 0 || r.code == 1
    ensures StrictlySorted(s) ==> (r.code == 1 <==> !HasAddr(s, b.addr))
    ensures StrictlySorted(s) ==> StrictlySorted(r.list)
  {
    if |s| == 0 then Linked([b], 1)
    else if b.addr < s[0].addr then
      assert StrictlySorted(s) ==> !HasAddr(s, b.addr);
      assert StrictlySorted(s) ==> StrictlySorted([b] + s) by {
        if StrictlySorted(s) {
          ConsSorted(b, s);
        }
      }
      Linked([b] + s, 1)
    else InsertAfter(s, b)
  }

  /** The search loop of InsertToList; `s[0]` is `tmp`. */
  function InsertAfter(s: seq<Block>, b: Block): (r: Linked)
    requires |s| > 0
    ensures r.code == 0 ==> r.list == s
    ensures r.code == 1 ==> multiset(r.list) == multiset(s) + multiset{b}
    ensures r.code == 0 || r.code == 1
    ensures StrictlySorted(s) && b.addr < s[0].addr ==> r.code == 0
    ensures StrictlySorted(s) && s[0].addr <= b.addr ==> (r.code == 1 <==> !HasAddr(s, b.addr))
    ensures StrictlySorted(s) ==> StrictlySorted(r.list)
    decreases |s|
  {
    if b.addr > s[0].addr && (|s| == 1 || b.addr < s[1].addr) then
      InsertHere(s, b);
      Linked([s[0], b] + s[1..], 1)
    else if |s| == 1 then
      Linked(s, 0)
    else
      var rest := InsertAfter(s[1..], b);
      InsertAfterStep(s, b, rest);
      Linked([s[0]] + rest.list, rest.code)
  }

  /** The splice after `tmp == s[0]` of InsertAfter. */
  lemma InsertHere(s: seq<Block>, b: Block)
    requires |s| > 0 && b.addr > s[0].addr && (|s| == 1 || b.addr < s[1].addr)
    ensures multiset([s[0], b] + s[1..]) == multiset(s) + multiset{b}
    ensures StrictlySorted(s) ==> !HasAddr(s, b.addr) && StrictlySorted([s[0], b] + s[1..])
  {
    assert s == [s[0]] + s[1..];
    if StrictlySorted(s) {
      forall i | 0 <= i < |s|
        ensures s[i].addr != b.addr
      {
        if i > 0 {
          assert s[1].addr <= s[i].addr;
        }
      }
      var r := [s[0], b] + s[1..];
      forall i, j | 0 <= i < j < |r|
        ensures r[i].addr < r[j].addr
      {
        if j >= 2 {
          assert r[j] == s[j - 1];
          if i >= 2 {
            assert r[i] == s[i - 1];
          } else if |s| > 1 {
            assert s[1].addr <= s[j - 1].addr;
          }
        }
      }
    }
  }

  /** The recursive case of InsertAfter: `rest` is the outcome of the search from `s[1]` on. */
  lemma InsertAfterStep(s: seq<Block>, b: Block, rest: Linked)
    requires |s| > 1
    requires !(b.addr > s[0].addr && b.addr < s[1].addr)
    requires rest.code == 0 ==> rest.list == s[1..]
    requires rest.code == 1 ==> multiset(rest.list) == multiset(s[1..]) + multiset{b}
    requires rest.code == 0 || rest.code == 1
    requires StrictlySorted(s[1..]) && b.addr < s[1].addr ==> rest.code == 0
    requires StrictlySorted(s[1..]) && s[1].addr <= b.addr ==> (rest.code == 1 <==> !HasAddr(s[1..], b.addr))
    requires StrictlySorted(s[1..]) ==> StrictlySorted(rest.list)
    ensures rest.code == 0 ==> [s[0]] + rest.list == s
    ensures rest.code == 1 ==> multiset([s[0]] + rest.list) == multiset(s) + multiset{b}
    ensures StrictlySorted(s) && b.addr < s[0].addr ==> rest.code == 0
    ensures StrictlySorted(s) && s[0].addr <= b.addr ==> (rest.code == 1 <==> !HasAddr(s, b.addr))
    ensures StrictlySorted(s) ==> StrictlySorted([s[0]] + rest.list)
  {
    assert s == [s[0]] + s[1..];
    if StrictlySorted(s) {
      SortedTail(s[0], s[1..]);
      if b.addr <= s[0].addr {
        InsertBelow(s, b);
      } else {
        HasAddrTail(s, b.addr);
        if rest.code == 1 {
          AboveAll(s[0].addr, s[1..], b, rest.list);
          ConsSorted(s[0], rest.list);
        }
      }
    }
  }

  /** A block at or below the head of a sorted list with two nodes lies below the second, and at the head's address it is present. */
  lemma InsertBelow(s: seq<Block>, b: Block)
    requires |s| > 1 && StrictlySorted(s) && b.addr <= s[0].addr
    ensures b.addr < s[1].addr
    ensures b.addr == s[0].addr ==> HasAddr(s, b.addr)
  {
  }

  /** Past a head at another address, the list holds an address exactly when its tail does. */
  lemma HasAddrTail(s: seq<Block>, a: nat)
    requires |s| > 0 && s[0].addr != a
    ensures HasAddr(s, a) <==> HasAddr(s[1..], a)
  {
    if HasAddr(s, a) {
      var i :| 0 <= i < |s| && s[i].addr == a;
      assert s[1..][i - 1].addr == a;
    }
    if HasAddr(s[1..], a) {
      var i :| 0 <= i < |s[1..]| && s[1..][i].addr == a;
      assert s[i + 1].addr == a;
    }
  }

  /** Deleting one block from a list with distinct addresses leaves no block at its address. */
  lemma UniqueDelete(s: seq<Block>, k: nat)
    requires UniqueAddrs(s) && k < |s|
    ensures !HasAddr(s[..k] + s[k + 1..], s[k].addr)
  {
    var d := s[..k] + s[k + 1..];
    forall j | 0 <= j < |d|
      ensures d[j].addr != s[k].addr
    {
      if j < k {
        assert d[j] == s[j];
      } else {
        assert d[j] == s[j + 1];
      }
    }
  }

  /** Removing the block at position `i`, when no earlier block shares its address, unlinks exactly that position. */
  lemma {:induction false} RemoveAt(s: seq<Block>, i: nat)
    requires i < |s|
    requires forall j :: 0 <= j < i ==> s[j].addr != s[i].addr
    ensures RemoveFromList(s, s[i].addr) == Linked(s[..i] + s[i + 1..], 1)
  {
    if i > 0 {
      var t := s[1..];
      assert t[i - 1] == s[i];
      assert forall j :: 0 <= j < i - 1 ==> t[j].addr != t[i - 1].addr by {
        forall j | 0 <= j < i - 1
          ensures t[j].addr != t[i - 1].addr
        {
          assert t[j] == s[j + 1];
        }
      }
      RemoveAt(t, i - 1);
      assert [s[0]] + (t[..i - 1] + t[i..]) == s[..i] + s[i + 1..];
    }
  }

  /** The block found by address is the first one there, so removing that address unlinks exactly it. */
  lemma RemoveIndexOf(s: seq<Block>, a: nat)
    requires HasAddr(s, a)
    ensures RemoveFromList(s, a) == Linked(s[..IndexOf(s, a)] + s[IndexOf(s, a) + 1..], 1)
  {
    RemoveAt(s, IndexOf(s, a));
  }

  /** In a sorted list a member block is the one its address finds, and removing that address drops exactly it. */
  lemma RemoveMember(s: seq<Block>, b: Block)
    requires StrictlySorted(s) && b in s
    ensures RemoveFromList(s, b.addr).code == 1
    ensures StrictlySorted(RemoveFromList(s, b.addr).list)
    ensures multiset(s) == multiset(RemoveFromList(s, b.addr).list) + multiset{b}
  {
    var i :| 0 <= i < |s| && s[i] == b;
    assert forall j :: 0 <= j < i ==> s[j].addr < s[i].addr;
    RemoveAt(s, i);
    DeleteAt(s, i);
    assert b in multiset(s);
  }

  /** In a sorted list, looking a member block up by its address finds that block. */
  lemma IndexOfMember(s: seq<Block>, b: Block)
    requires StrictlySorted(s) && b in s
    ensures HasAddr(s, b.addr) && s[IndexOf(s, b.addr)] == b
  {
    var i :| 0 <= i < |s| && s[i] == b;
    assert forall j :: 0 <= j < i ==> s[j].addr < s[i].addr;
    RemoveAt(s, i);
  }

  /** Two sorted lists holding the same blocks are the same list. */
  lemma {:induction false} SortedEqual(s: seq<Block>, t: seq<Block>)
    requires StrictlySorted(s) && StrictlySorted(t)
    requires multiset(s) == multiset(t)
    ensures s == t
    decreases |s|
  {
    assert |s| == |multiset(s)| == |multiset(t)| == |t|;
    if |s| > 0 {
      SameHead(s, t);
      SameTailCount(s, t);
      SortedRest(s);
      SortedRest(t);
      SortedEqual(s[1..], t[1..]);
      ConsEqual(s, t);
    }
  }

  /** Two lists with the same head and the same blocks have tails with the same blocks. */
  lemma SameTailCount(s: seq<Block>, t: seq<Block>)
    requires |s| > 0 && |t| > 0 && s[0] == t[0] && multiset(s) == multiset(t)
    ensures multiset(s[1..]) == multiset(t[1..])
  {
    assert multiset(s) == multiset{s[0]} + multiset(s[1..]) by {
      assert s == [s[0]] + s[1..];
    }
    assert multiset(t) == multiset{t[0]} + multiset(t[1..]) by {
      assert t == [t[0]] + t[1..];
    }
    assert multiset(s[1..]) == multiset(s) - multiset{s[0]};
    assert multiset(t[1..]) == multiset(t) - multiset{t[0]};
  }

  /** The tail of a sorted list is sorted. */
  lemma SortedRest(s: seq<Block>)
    requires StrictlySorted(s) && |s| > 0
    ensures StrictlySorted(s[1..])
  {
    assert forall i :: 0 <= i < |s[1..]| ==> s[1..][i] == s[i + 1];
  }

  /** Lists with equal heads and equal tails are equal. */
  lemma ConsEqual(s: seq<Block>, t: seq<Block>)
    requires |s| > 0 && |t| > 0 && s[0] == t[0] && s[1..] == t[1..]
    ensures s == t
  {
    assert s == [s[0]] + s[1..] && t == [t[0]] + t[1..];
  }

  /** Two non-empty sorted lists holding the same blocks start with the same block. */
  lemma SameHead(s: seq<Block>, t: seq<Block>)
    requires StrictlySorted(s) && StrictlySorted(t)
    requires multiset(s) == multiset(t) && |s| > 0 && |t| > 0
    ensures s[0] == t[0]
  {
    assert s[0] in multiset(t) && t[0] in multiset(s);
    var j :| 0 <= j < |t| && t[j] == s[0];
    var i :| 0 <= i < |s| && s[i] == t[0];
    assert s[0].addr <= s[i].addr;
    assert t[0].addr <= t[j].addr;
    assert i == 0;
  }

  /** Putting a block below every block of a sorted list in front keeps it sorted. */
  lemma ConsSorted(x: Block, u: seq<Block>)
    requires StrictlySorted(u)
    requires forall i :: 0 <= i < |u| ==> x.addr < u[i].addr
    ensures StrictlySorted([x] + u)
  {
    SortedCons(x, u);
  }

  /** A list with a head is sorted exactly when its tail is sorted and lies above the head. */
  lemma SortedCons(x: Block, u: seq<Block>)
    ensures StrictlySorted([x] + u) <==> StrictlySorted(u) && forall i :: 0 <= i < |u| ==> x.addr < u[i].addr
  {
    if StrictlySorted([x] + u) {
      SortedTail(x, u);
    }
    if StrictlySorted(u) && forall i :: 0 <= i < |u| ==> x.addr < u[i].addr {
      SortedBuild(x, u);
    }
  }

  lemma SortedTail(x: Block, u: seq<Block>)
    requires StrictlySorted([x] + u)
    ensures StrictlySorted(u) && forall i :: 0 <= i < |u| ==> x.addr < u[i].addr
  {
    var v := [x] + u;
    forall i, j | 0 <= i < j < |u|
      ensures u[i].addr < u[j].addr
    {
      assert v[i + 1] == u[i] && v[j + 1] == u[j];
    }
    forall i | 0 <= i < |u|
      ensures x.addr < u[i].addr
    {
      assert v[0] == x && v[i + 1] == u[i];
    }
  }

  lemma SortedBuild(x: Block, u: seq<Block>)
    requires StrictlySorted(u) && forall i :: 0 <= i < |u| ==> x.addr < u[i].addr
    ensures StrictlySorted([x] + u)
  {
    var v := [x] + u;
    forall i, j | 0 <= i < j < |v|
      ensures v[i].addr < v[j].addr
    {
      assert v[j] == u[j - 1];
      if i > 0 {
        assert v[i] == u[i - 1];
      }
    }
  }

  /** Every block of a list built from `t` and `b` lies above `a` when all of `t` and `b` do. */
  lemma AboveAll(a: nat, t: seq<Block>, b: Block, u: seq<Block>)
    requires StrictlySorted(u)
    requires multiset(u) == multiset(t) + multiset{b}
    requires a < b.addr
    requires forall i :: 0 <= i < |t| ==> a < t[i].addr
    ensures forall i :: 0 <= i < |u| ==> a < u[i].addr
  {
    forall i | 0 <= i < |u|
      ensures a < u[i].addr
    {
      assert u[i] in multiset(u);
      if u[i] != b {
        assert u[i] in multiset(t);
        var j :| 0 <= j < |t| && t[j] == u[i];
      }
    }
  }

  /** A list whose blocks all come from two lists inherits the flag both have. */
  lemma FlagsFrom(s: seq<Block>, t: seq<Block>, u: seq<Block>)
    requires multiset(s) <= multiset(t) + multiset(u)
    ensures AllFree(t) && AllFree(u) ==> AllFree(s)
    ensures AllInUse(t) && AllInUse(u) ==> AllInUse(s)
  {
    forall i | 0 <= i < |s|
      ensures s[i] in t || s[i] in u
    {
      assert s[i] in multiset(s);
    }
  }

  /** Σ (size + H): the footprint of a list, with sizes masked. */
  function Sum(s: seq<Block>): (r: nat)
    ensures r >= H * |s|
  {
    if |s| == 0 then 0 else Footprint(s[0]) + Sum(s[1..])
  }

  /** Σ (size + H) over the raw words, as the C loops add them up. */
  function RawSum(s: seq<Block>): nat
  {
    if |s| == 0 then 0 else Word(s[0]) + H + RawSum(s[1..])
  }

  lemma {:induction false} SumConcat(s: seq<Block>, t: seq<Block>)
    ensures Sum(s + t) == Sum(s) + Sum(t)
  {
    if |s| == 0 {
      assert s + t == t;
    } else {
      assert (s + t)[1..] == s[1..] + t;
      SumConcat(s[1..], t);
    }
  }

  /** The footprint of a list depends only on which blocks it holds, not on their order. */
  lemma {:induction false} SumPermutation(s: seq<Block>, t: seq<Block>)
    requires multiset(s) == multiset(t)
    ensures Sum(s) == Sum(t)
    decreases |s|
  {
    if |s| == 0 {
      assert |t| == |multiset(t)| == 0;
    } else {
      var j := Locate(t, s[0]);
      DeleteSame(s, t, j);
      SumPermutation(s[1..], t[..j] + t[j + 1..]);
      SumDelete(t, j);
    }
  }

  /** A position of a block that occurs in a list. */
  lemma Locate(t: seq<Block>, x: Block) returns (j: nat)
    requires x in multiset(t)
    ensures j < |t| && t[j] == x
  {
    j :| 0 <= j < |t| && t[j] == x;
  }

  /** Taking the head off one list and the same block off a permutation of it leaves permutations. */
  lemma DeleteSame(s: seq<Block>, t: seq<Block>, j: nat)
    requires multiset(s) == multiset(t) && |s| > 0 && j < |t| && t[j] == s[0]
    ensures multiset(s[1..]) == multiset(t[..j] + t[j + 1..])
  {
    assert multiset(s[1..]) == multiset(s) - multiset{s[0]} by {
      assert s == [s[0]] + s[1..];
    }
    MultisetDelete(t, j);
  }

  lemma MultisetDelete(s: seq<Block>, k: nat)
    requires k < |s|
    ensures multiset(s[..k] + s[k + 1..]) == multiset(s) - multiset{s[k]}
  {
    assert s == s[..k] + [s[k]] + s[k + 1..];
  }

  lemma SumDelete(s: seq<Block>, k: nat)
    requires k < |s|
    ensures Sum(s) == Footprint(s[k]) + Sum(s[..k] + s[k + 1..])
  {
    Around(s, k);
    SumConcat(s[..k], [s[k]] + s[k + 1..]);
    SumCons(s[k], s[k + 1..]);
    SumConcat(s[..k], s[k + 1..]);
  }

  /** A list is what lies before position `k`, the block there, and what lies after. */
  lemma Around(s: seq<Block>, k: nat)
    requires k < |s|
    ensures s == s[..k] + ([s[k]] + s[k + 1..])
  {
  }

  /** The footprint of a list with a head is the head's plus the rest's. */
  lemma SumCons(x: Block, t: seq<Block>)
    ensures Sum([x] + t) == Footprint(x) + Sum(t)
  {
    assert ([x] + t)[1..] == t;
  }

  /** A list holding the blocks of another plus one more has that block's footprint more. */
  lemma SumAdd(s: seq<Block>, t: seq<Block>, b: Block)
    requires multiset(s) == multiset(t) + multiset{b}
    ensures Sum(s) == Sum(t) + Footprint(b)
  {
    assert multiset(t + [b]) == multiset(t) + multiset{b};
    SumPermutation(s, t + [b]);
    SumConcat(t, [b]);
    assert Sum([b]) == Footprint(b);
  }

  /** On a list of free blocks the raw sum is the footprint; each in-use block adds its flag bit. */
  lemma {:induction false} RawSumFlags(s: seq<Block>)
    ensures AllFree(s) ==> RawSum(s) == Sum(s)
    ensures AllInUse(s) ==> RawSum(s) == Sum(s) + |s|
  {
    if |s| > 0 {
      RawSumFlags(s[1..]);
    }
  }

  /** Putting `rest` in the place of block `i`: the blocks and footprint of the list trade `h[i]` for those of `rest`. */
  lemma SpliceCount(h: seq<Block>, i: nat, rest: seq<Block>)
    requires i < |h|
    ensures var h' := h[..i] + rest + h[i + 1..];
      var d := h[..i] + h[i + 1..];
      && multiset(h) == multiset(d) + multiset{h[i]}
      && multiset(h') == multiset(d) + multiset(rest)
      && multiset(h') <= multiset(h) + multiset(rest)
      && Sum(h) == Sum(d) + Footprint(h[i])
      && Sum(h') == Sum(d) + Sum(rest)
  {
    var h' := h[..i] + rest + h[i + 1..];
    var d := h[..i] + h[i + 1..];
    MultisetDelete(h, i);
    assert h[i] in multiset(h);
    assert multiset(h') == multiset(h[..i]) + multiset(rest) + multiset(h[i + 1..]);
    SumDelete(h, i);
    SumConcat(h[..i], rest);
    SumConcat(h[..i] + rest, h[i + 1..]);
    SumConcat(h[..i], h[i + 1..]);
  }

  /** Unlinking the first block at an address, when `pieces` took position `i` and starts at its address, leaves the rest of the pieces there. */
  lemma UnlinkFirst(h: seq<Block>, i: nat, pieces: seq<Block>)
    requires i < |h| && |pieces| > 0 && pieces[0].addr == h[i].addr
    requires forall j :: 0 <= j < i ==> h[j].addr != h[i].addr
    ensures RemoveFromList(h[..i] + pieces + h[i + 1..], pieces[0].addr).list == h[..i] + pieces[1..] + h[i + 1..]
  {
    var linked := h[..i] + pieces + h[i + 1..];
    SplitParts(h[..i], pieces, h[i + 1..]);
    assert forall j :: 0 <= j < i ==> linked[j].addr != linked[i].addr by {
      forall j | 0 <= j < i
        ensures linked[j].addr != linked[i].addr
      {
        assert linked[j] == h[..i][j];
      }
    }
    RemoveAt(linked, i);
  }

  /** The parts of `u + p + v` around position `|u|`. */
  lemma SplitParts(u: seq<Block>, p: seq<Block>, v: seq<Block>)
    requires |p| > 0
    ensures var w := u + p + v;
      && |u| < |w| && w[..|u|] == u && w[|u|] == p[0] && w[|u| + 1..] == p[1..] + v
      && forall j :: 0 <= j < |u| ==> w[j] == u[j]
  {
  }

}
