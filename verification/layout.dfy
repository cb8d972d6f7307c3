/**
  How the blocks of all lists sit in the pool: no two overlap, each lies
  inside the pool, and each size is a multiple of the alignment.  Stated on
  the multiset of all blocks, so moving a block between lists does not
  change it.
*/
module Layout {
  import opened Header
  import opened BlockList

  /** No block occurs twice and any two distinct blocks occupy disjoint byte ranges. */
  ghost predicate NonOverlapping(m: multiset<Block>)
  {
    && (forall x :: m[x] <= 1)
    && (forall x, y :: x in m && y in m && x != y ==> Apart(x, y))
  }

  /** Every block has a size that is a multiple of the alignment and lies within the pool `[base, base + size)`, and none overlap. */
  ghost predicate Placed(m: multiset<Block>, base: nat, size: nat)
  {
    && NonOverlapping(m)
    && (forall x :: x in m ==> x.size % ALIGNMENT == 0 && base <= x.addr && End(x) <= base + size)
  }

  /** A block of a placed multiset has an aligned size and lies inside the pool. */
  lemma PlacedBlock(m: multiset<Block>, base: nat, size: nat, x: Block)
    requires Placed(m, base, size) && x in m
    ensures x.size % ALIGNMENT == 0 && base <= x.addr && End(x) <= base + size
  {
  }

  /** `y` lies within the byte range of `x`. */
  predicate Covered(y: Block, x: Block)
  {
    x.addr <= y.addr && End(y) <= End(x)
  }

  /** Blocks of two lists drawn from one placed multiset occupy disjoint ranges, so never share an address. */
  lemma ListsApart(m: multiset<Block>, base: nat, size: nat, s: seq<Block>, t: seq<Block>)
    requires Placed(m, base, size)
    requires multiset(s) + multiset(t) <= m
    ensures forall i, j :: 0 <= i < |s| && 0 <= j < |t| ==> Apart(s[i], t[j])
    ensures forall i :: 0 <= i < |s| ==> !HasAddr(t, s[i].addr)
  {
    forall i, j | 0 <= i < |s| && 0 <= j < |t|
      ensures Apart(s[i], t[j])
    {
      assert s[i] in multiset(s) && t[j] in multiset(t);
      assert (multiset(s) + multiset(t))[s[i]] == multiset(s)[s[i]] + multiset(t)[s[i]];
    }
    forall i | 0 <= i < |s|
      ensures !HasAddr(t, s[i].addr)
    {
      forall j | 0 <= j < |t|
        ensures t[j].addr != s[i].addr
      {
        assert Apart(s[i], t[j]);
      }
    }
  }

  /** Blocks of one list drawn from a placed multiset have distinct addresses. */
  lemma ListUnique(m: multiset<Block>, base: nat, size: nat, s: seq<Block>)
    requires Placed(m, base, size)
    requires multiset(s) <= m
    ensures UniqueAddrs(s)
  {
    forall i, j | 0 <= i < |s| && 0 <= j < |s| && i != j
      ensures s[i].addr != s[j].addr
    {
      var lo := if i < j then i else j;
      var hi := if i < j then j else i;
      assert s == s[..hi] + [s[hi]] + s[hi + 1..];
      assert s[lo] in multiset(s[..hi]);
      assert multiset(s)[s[hi]] == multiset(s[..hi])[s[hi]] + 1 + multiset(s[hi + 1..])[s[hi]];
    }
  }

  /** Replacing one block by blocks inside its range that do not overlap each other keeps the layout. */
  lemma ReplaceInside(m: multiset<Block>, base: nat, size: nat, x: Block, n: multiset<Block>)
    requires Placed(m, base, size) && x in m
    requires NonOverlapping(n)
    requires forall y :: y in n ==> Covered(y, x) && y.size % ALIGNMENT == 0
    ensures Placed(m - multiset{x} + n, base, size)
  {
    var r := m - multiset{x};
    assert r[x] == 0;
    forall z | z in r
      ensures Apart(x, z) && n[z] == 0
    {
      assert z != x;
    }
    var m' := r + n;
    forall z
      ensures m'[z] <= 1
    {
      if z in r {
        assert n[z] == 0;
      }
    }
    forall y, z | y in m' && z in m' && y != z
      ensures Apart(y, z)
    {
    }
  }

  /** Merging two placed blocks, the second right after the first, into one spanning both keeps the layout. */
  lemma MergeInside(m: multiset<Block>, base: nat, size: nat, a: Block, b: Block, c: Block)
    requires Placed(m, base, size) && a in m && b in m && a != b
    requires End(a) == b.addr && c.addr == a.addr && End(c) == End(b) && c.size % ALIGNMENT == 0
    ensures Placed(m - multiset{a} - multiset{b} + multiset{c}, base, size)
  {
    var r := m - multiset{a} - multiset{b};
    assert r[a] == 0 && r[b] == 0;
    forall z | z in r
      ensures Apart(c, z) && z != c
    {
      assert z != a && z != b;
      assert Apart(a, z) && Apart(b, z);
    }
    var m' := r + multiset{c};
    forall z
      ensures m'[z] <= 1
    {
    }
  }

}
