/**
  The run main.cpp makes against the older allocator, with the assertion
  `assert(ptr[i])` it makes after every Mem_malloc: five 1024-byte blocks
  taken and released twice, then the sizes 64 down to 1, then a hundred
  sizes drawn from `rand() % 100 + 1`, each batch released in the order it
  was taken, and finally CheckPool.  The drawn sizes are a parameter.
*/
module Driver {
  import opened Header
  import opened BlockList
  import opened Fit
  import opened Wrappers
  import opened Legacy
  import opened LegacyProofs

  /** POOL_SIZE of main.cpp. */
  const POOL_SIZE: nat := 1024 * 1024

  /** Some free block's word is at least `k`. */
  ghost predicate HasRoom(free: seq<Block>, k: nat)
  {
    exists j :: 0 <= j < |free| && Word(free[j]) >= k
  }

  /** The pointers main.cpp holds are the payloads of the handed-out blocks, in order. */
  ghost predicate Handed(ptrs: seq<Option<nat>>, live: seq<Block>)
  {
    |ptrs| == |live| && forall k :: 0 <= k < |ptrs| ==> ptrs[k] == Some(PayloadAddr(live[k]))
  }

  /** What a batch of requests can take out of one free block: each aligned request plus one header. */
  function Cost(sizes: seq<nat>): (c: nat)
    ensures |sizes| > 0 ==> c >= Align(sizes[0]) + H
  {
    if |sizes| == 0 then 0 else Align(sizes[0]) + H + Cost(sizes[1..])
  }

  /** A batch of requests of at most `m` bytes each costs at most `m + 24` bytes per request. */
  lemma {:induction false} CostBound(sizes: seq<nat>, m: nat)
    requires forall k :: 0 <= k < |sizes| ==> sizes[k] <= m
    ensures Cost(sizes) <= |sizes| * (m + ALIGNMENT + H)
  {
    if |sizes| > 0 {
      CostBound(sizes[1..], m);
      assert (|sizes| - 1) * (m + ALIGNMENT + H) + (m + ALIGNMENT + H) == |sizes| * (m + ALIGNMENT + H);
    }
  }

  /**
    A free block with a word above the aligned request plus one header
    makes Mem_malloc succeed, and some free block then still has that word
    less the request and one header.
  */
  lemma MallocRoom(p: LegacyPool, n: nat, k: nat)
    requires Valid(p) && HasRoom(p.free, k) && k > Align(n) + H
    ensures MemMalloc(p, n).ptr.Some?
    ensures HasRoom(MemMalloc(p, n).pool.free, k - Align(n) - H)
  {
    var req := Align(n);
    var j :| 0 <= j < |p.free| && Word(p.free[j]) >= k;
    assert Fits(p.free[j], req);
    var i := FirstFit(p.free, req).value;
    FreeUnique(p);
    FreeBlock(p, i);
    MallocTakes(p, n, i);
    PiecesFacts(p.free[i], req);
    RoomAfterSplice(p.free, i, Pieces(p.free[i], req), j, k - req - H);
  }

  /**
    A block with room survives when block `i`, at or before it, is replaced
    by the remainder pieces; when it is the replaced block itself, the
    remainder must carry the room.
  */
  lemma RoomAfterSplice(free: seq<Block>, i: nat, pieces: seq<Block>, j: nat, k: nat)
    requires i <= j < |free| && |pieces| > 0
    requires i < j ==> Word(free[j]) >= k
    requires i == j ==> |pieces| == 2 && Word(pieces[1]) >= k
    ensures HasRoom(free[..i] + pieces[1..] + free[i + 1..], k)
  {
    var free' := free[..i] + pieces[1..] + free[i + 1..];
    if i == j {
      assert free'[i] == pieces[1];
    } else {
      assert free'[j + |pieces| - 2] == free[j];
    }
  }

  /** Mem_free only adds to the free list, so a block with room stays. */
  lemma FreeRoom(p: LegacyPool, mem: nat, k: nat)
    requires mem >= H && HasAddr(p.live, HeaderAddr(mem)) && HasRoom(p.free, k)
    ensures HasRoom(MemFree(p, mem).free, k)
  {
    var q := MemFree(p, mem);
    var j :| 0 <= j < |p.free| && Word(p.free[j]) >= k;
    assert q.free[j + 1] == p.free[j];
  }

  /** Releasing the oldest handed-out block takes it off the head of the handed-out list. */
  lemma FreeHead(p: LegacyPool, mem: nat)
    requires |p.live| > 0 && mem == PayloadAddr(p.live[0])
    ensures mem >= H && HasAddr(p.live, HeaderAddr(mem))
    ensures MemFree(p, mem).live == p.live[1..]
  {
    assert p.live[0].addr == HeaderAddr(mem);
  }

  /**
    One batch of main.cpp's Mem_malloc calls on a pool with nothing handed
    out: every call succeeds, and the pointers are the payloads of the
    handed-out blocks in order.
  */
  method AllocAll(p: LegacyPool, sizes: seq<nat>, ghost room: nat) returns (q: LegacyPool, ptrs: seq<Option<nat>>)
    requires Valid(p) && p.live == [] && HasRoom(p.free, room) && Cost(sizes) < room
    ensures Valid(q) && HasRoom(q.free, room - Cost(sizes))
    ensures q.base == p.base && q.poolSize == p.poolSize
    ensures |ptrs| == |sizes| && Handed(ptrs, q.live)
  {
    q := p;
    ptrs := [];
    ghost var left: nat := room;
    var j := 0;
    while j < |sizes|
      invariant 0 <= j <= |sizes|
      invariant Valid(q) && HasRoom(q.free, left) && Cost(sizes[j..]) < left
      invariant left + Cost(sizes) == room + Cost(sizes[j..])
      invariant q.base == p.base && q.poolSize == p.poolSize
      invariant |ptrs| == j && Handed(ptrs, q.live)
    {
      assert sizes[j..][0] == sizes[j] && sizes[j..][1..] == sizes[j + 1..];
      AllocStep(q, sizes[j], left, ptrs);
      var r := MemMalloc(q, sizes[j]);
      ptrs := ptrs + [r.ptr];
      q := r.pool;
      left := left - Align(sizes[j]) - H;
      j := j + 1;
    }
  }

  /** One Mem_malloc of the batch: it succeeds, the pool stays valid, and its pointer is recorded. */
  lemma AllocStep(q: LegacyPool, n: nat, left: nat, ptrs: seq<Option<nat>>)
    requires Valid(q) && HasRoom(q.free, left) && left > Align(n) + H && Handed(ptrs, q.live)
    ensures var r := MemMalloc(q, n);
      && r.ptr.Some? && Valid(r.pool) && HasRoom(r.pool.free, left - Align(n) - H)
      && Handed(ptrs + [r.ptr], r.pool.live)
      && r.pool.base == q.base && r.pool.poolSize == q.poolSize
  {
    MallocRoom(q, n, left);
    MallocValid(q, n);
    var r := MemMalloc(q, n);
    HandedStep(ptrs, q.live, r.pool.live, r.ptr);
  }

  /** Recording the pointer of a block appended to the handed-out list keeps the two in step. */
  lemma HandedStep(ptrs: seq<Option<nat>>, live: seq<Block>, live': seq<Block>, ptr: Option<nat>)
    requires Handed(ptrs, live)
    requires |live'| == |live| + 1 && live'[..|live|] == live && ptr == Some(PayloadAddr(live'[|live|]))
    ensures Handed(ptrs + [ptr], live')
  {
    forall k | 0 <= k < |ptrs|
      ensures live'[k] == live[k]
    {
      assert live'[..|live|][k] == live'[k];
    }
  }

  /**
    One batch of main.cpp's Mem_free calls, in the order the pointers were
    handed out: every pointer is a live one when it is released, and
    afterwards nothing is handed out.
  */
  method FreeAll(p: LegacyPool, ptrs: seq<Option<nat>>, ghost room: nat) returns (q: LegacyPool)
    requires Valid(p) && HasRoom(p.free, room) && Handed(ptrs, p.live)
    ensures Valid(q) && q.live == [] && HasRoom(q.free, room)
    ensures q.base == p.base && q.poolSize == p.poolSize
  {
    q := p;
    var j := 0;
    while j < |ptrs|
      invariant 0 <= j <= |ptrs|
      invariant Valid(q) && HasRoom(q.free, room) && q.live == p.live[j..]
      invariant q.base == p.base && q.poolSize == p.poolSize
    {
      var mem := ptrs[j].value;
      FreeHead(q, mem);
      FreeValid(q, mem);
      FreeRoom(q, mem, room);
      assert p.live[j..][1..] == p.live[j + 1..];
      q := MemFree(q, mem);
      j := j + 1;
    }
  }

  /**
    One batch of main.cpp: the sizes are taken, each `assert(ptr[i])`
    holding, then released in the same order; each request of at most
    `m` bytes uses up at most `m + 24` bytes of the largest free block.
  */
  method Batch(p: LegacyPool, sizes: seq<nat>, m: nat, ghost room: nat) returns (q: LegacyPool, ptrs: seq<Option<nat>>)
    requires Valid(p) && p.live == [] && HasRoom(p.free, room)
    requires forall k :: 0 <= k < |sizes| ==> sizes[k] <= m
    requires |sizes| * (m + ALIGNMENT + H) < room
    ensures Valid(q) && q.live == [] && HasRoom(q.free, room - |sizes| * (m + ALIGNMENT + H))
    ensures q.base == p.base && q.poolSize == p.poolSize
    ensures |ptrs| == |sizes| && forall k :: 0 <= k < |ptrs| ==> ptrs[k].Some?
  {
    CostBound(sizes, m);
    q, ptrs := AllocAll(p, sizes, room);
    q := FreeAll(q, ptrs, room - Cost(sizes));
    RoomLess(q.free, room - Cost(sizes), room - |sizes| * (m + ALIGNMENT + H));
  }

  /** Room for `k` bytes is room for fewer. */
  lemma RoomLess(free: seq<Block>, k: nat, k': nat)
    requires HasRoom(free, k) && k' <= k
    ensures HasRoom(free, k')
  {
  }

  /**
    main.cpp from InitMemPool to CheckPool: every `assert(ptr[i])` holds,
    and CheckPool's free total at the end is the whole pool.
  */
  method MainScenario(base: nat, randomSizes: seq<nat>)
    returns (first: seq<Option<nat>>, second: seq<Option<nat>>, third: seq<Option<nat>>, fourth: seq<Option<nat>>, total: nat)
    requires |randomSizes| == 100 && forall k :: 0 <= k < |randomSizes| ==> 1 <= randomSizes[k] <= 100
    ensures |first| == 5 && forall k :: 0 <= k < |first| ==> first[k].Some?
    ensures |second| == 5 && forall k :: 0 <= k < |second| ==> second[k].Some?
    ensures |third| == 64 && forall k :: 0 <= k < |third| ==> third[k].Some?
    ensures |fourth| == 100 && forall k :: 0 <= k < |fourth| ==> fourth[k].Some?
    ensures total == POOL_SIZE
  {
    var p;
    p, first, second := Opening(base);
    var downward := Downward();
    assert |downward| * (64 + ALIGNMENT + H) == 5632;
    assert |randomSizes| * (100 + ALIGNMENT + H) == 12400;
    p, third := Batch(p, downward, 64, 1038080);
    p, fourth := Batch(p, randomSizes, 100, 1032448);
    CheckPoolBalance(p);
    total := CheckPool(p);
  }

  /** The third batch of main.cpp: the sizes 64, 63, ..., 1. */
  function Downward(): (s: seq<nat>)
    ensures |s| == 64 && forall k :: 0 <= k < |s| ==> 1 <= s[k] <= 64
  {
    seq(64, k requires 0 <= k < 64 => 64 - k)
  }

  /** The start of main.cpp: InitMemPool, then five 1024-byte blocks taken and released, twice. */
  method Opening(base: nat) returns (p: LegacyPool, first: seq<Option<nat>>, second: seq<Option<nat>>)
    ensures Valid(p) && p.live == [] && p.poolSize == POOL_SIZE && HasRoom(p.free, 1038080)
    ensures |first| == 5 && forall k :: 0 <= k < |first| ==> first[k].Some?
    ensures |second| == 5 && forall k :: 0 <= k < |second| ==> second[k].Some?
  {
    p := InitMemPool(base, POOL_SIZE).0;
    InitValid(base, POOL_SIZE);
    assert HasRoom(p.free, POOL_SIZE - H) by {
      assert Word(p.free[0]) == POOL_SIZE - H;
    }
    var fives: seq<nat> := [1024, 1024, 1024, 1024, 1024];
    assert |fives| * (1024 + ALIGNMENT + H) == 5240;
    p, first := Batch(p, fives, 1024, 1048560);
    p, second := Batch(p, fives, 1024, 1043320);
  }

}
