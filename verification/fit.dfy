/**
  The fit finder and splitter shared by both allocator versions: the
  first-fit scan of FindFit and the carving of a remainder block.
*/
module Fit {
  import opened Header
  import opened Wrappers

  /**
    The qualifying test of both FindFit loops, on the raw word: the block is
    exactly the request, or holds the request and one more header.  A block
    strictly between the two is passed over.
  */
  predicate Fits(b: Block, req: nat)
    ensures Fits(b, req) ==> Word(b) >= req
    ensures req < Word(b) < req + H ==> !Fits(b, req)
    ensures Word(b) == req || Word(b) >= req + H ==> Fits(b, req)
  {
    Word(b) >= req + H || Word(b) == req
  }

  /**
    MIN_BLOCK_SIZE(req) as the macro evaluates on a 64-bit size_t: `req + H`
    wraps for the requests within one header of 2^64.
  */
  function MinBlockSizeWord(req: nat): (r: nat)
    requires req < SIZE_MODULUS
    ensures r < SIZE_MODULUS
    ensures req + H < SIZE_MODULUS ==> r == req + H
    ensures req + H >= SIZE_MODULUS ==> r == req + H - SIZE_MODULUS && r < H
  {
    (req + H) % SIZE_MODULUS
  }

  /** The qualifying test of both FindFit loops as the C evaluates it, with the wrapped MIN_BLOCK_SIZE. */
  predicate FitsWord(b: Block, req: nat)
    requires req < SIZE_MODULUS
    ensures req + H < SIZE_MODULUS ==> (FitsWord(b, req) <==> Fits(b, req))
  {
    Word(b) >= MinBlockSizeWord(req) || Word(b) == req
  }

  /**
    The wrap: for a request within one header of 2^64, the test as written
    accepts every block whose word lies between the wrapped bound and the
    request, although none of them holds the request.
  */
  lemma FitsWordWraps(b: Block, req: nat)
    requires SIZE_MODULUS - H <= req < SIZE_MODULUS
    requires req + H - SIZE_MODULUS <= Word(b) < req
    ensures FitsWord(b, req) && !Fits(b, req)
  {
    assert MinBlockSizeWord(req) == req + H - SIZE_MODULUS;
  }

  /** First-fit: the position of the first qualifying block, or None (NULL). */
  function FirstFit(s: seq<Block>, req: nat): (r: Option<nat>)
    ensures r.Some? ==> r.value < |s| && Fits(s[r.value], req)
    ensures r.Some? ==> forall j :: 0 <= j < r.value ==> !Fits(s[j], req)
    ensures r.None? ==> forall j :: 0 <= j < |s| ==> !Fits(s[j], req)
  {
    if |s| == 0 then None
    else if Fits(s[0], req) then Some(0)
    else
      match FirstFit(s[1..], req)
      case None => None
      case Some(k) => Some(k + 1)
  }

  /** The two headers a split leaves: the block handed out and the remainder after it. */
  datatype Cut = Cut(taken: Block, rest: Block)

  /**
    Splitting `b` at `req` payload bytes: `b` keeps `req` bytes and is marked
    in use; a new header goes right after those bytes and takes the rest of
    the word minus one header, with bit 0 cleared.
  */
  function SplitAt(b: Block, req: nat): (r: Cut)
    requires Word(b) > req + H
    ensures r.taken.addr == b.addr && r.taken.size == req && r.taken.inUse
    ensures r.rest.addr == End(r.taken) && !r.rest.inUse
    ensures !b.inUse && b.size % ALIGNMENT == 0 && req % ALIGNMENT == 0 ==>
              && End(r.rest) == End(b)
              && Footprint(r.taken) + Footprint(r.rest) == Footprint(b)
              && r.rest.size % ALIGNMENT == 0
              && r.rest.size == b.size - req - H
  {
    var restWord := Word(b) - req - H;
    AlignedRemainder(b, req);
    Cut(Block(b.addr, req, true), Block(b.addr + H + req, restWord - restWord % 2, false))
  }

  /** The remainder of an aligned, flag-clear block cut at an aligned size is aligned, so bit 0 is already clear. */
  lemma AlignedRemainder(b: Block, req: nat)
    requires Word(b) > req + H
    ensures !b.inUse && b.size % ALIGNMENT == 0 && req % ALIGNMENT == 0 ==>
              (Word(b) - req - H) % ALIGNMENT == 0 && (Word(b) - req - H) % 2 == 0
  {
    if !b.inUse && b.size % ALIGNMENT == 0 && req % ALIGNMENT == 0 {
      var q := b.size / ALIGNMENT - req / ALIGNMENT - 2;
      assert b.size == ALIGNMENT * (b.size / ALIGNMENT) && req == ALIGNMENT * (req / ALIGNMENT);
      assert Word(b) - req - H == ALIGNMENT * q;
      assert (ALIGNMENT * q) % ALIGNMENT == 0 && (ALIGNMENT * q) % 2 == 0;
    }
  }

}
