/**
  Block header codec shared by both allocator versions.

  Every block starts with a header `{ next, size }` of H bytes placed inside
  the pool; its payload follows the header.  Sizes are rounded up to the
  alignment boundary, so bit 0 of the `size` word is free and carries the
  in-use flag.  A `Block` keeps the masked payload size and the flag apart;
  `Word` gives back the raw word the C code reads and writes.
*/
module Header {

  /** Alignment boundary of sizes (ALIGNMENT). */
  const ALIGNMENT: nat := 8

  /** ALIGN(sizeof(block_t)): two 8-byte fields on a 64-bit target. */
  const H: nat := 16

  /** Number of values of a 64-bit size_t. */
  const SIZE_MODULUS: nat := 0x1_0000_0000_0000_0000

  /** ALIGN(n) on unbounded naturals: the least multiple of ALIGNMENT that is at least n. */
  function Align(n: nat): (r: nat)
    ensures r % ALIGNMENT == 0
    ensures n <= r < n + ALIGNMENT
  {
    (n + ALIGNMENT - 1) - (n + ALIGNMENT - 1) % ALIGNMENT
  }

  /** ALIGN(n) as the macro evaluates on a 64-bit size_t, where `n + 7` wraps. */
  function AlignWord(n: nat): (r: nat)
    requires n < SIZE_MODULUS
    ensures r % ALIGNMENT == 0 && r < SIZE_MODULUS
    ensures n <= SIZE_MODULUS - ALIGNMENT ==> r == Align(n)
  {
    var sum := (n + ALIGNMENT - 1) % SIZE_MODULUS;
    sum - sum % ALIGNMENT
  }

  /** The wrap: the seven largest requests align to 0, far below what was asked. */
  lemma AlignWordWraps(n: nat)
    requires SIZE_MODULUS - ALIGNMENT < n < SIZE_MODULUS
    ensures AlignWord(n) == 0 < n
  {
    var sum := n + ALIGNMENT - 1;
    assert SIZE_MODULUS <= sum < SIZE_MODULUS + ALIGNMENT;
    assert sum % SIZE_MODULUS == sum - SIZE_MODULUS;
  }

  /** A block as its header describes it: address, masked payload size, in-use flag. */
  datatype Block = Block(addr: nat, size: nat, inUse: bool)

  /** The raw `size` word: payload size with the in-use flag in bit 0. */
  function Word(b: Block): nat
  {
    if b.inUse then b.size + 1 else b.size
  }

  /** Reads a header back from its address and raw word (`size & ~1`, `size & 1`). */
  function Decode(addr: nat, word: nat): (b: Block)
    ensures b.addr == addr && Word(b) == word
    ensures b.size % 2 == 0 && word - 1 <= b.size <= word
  {
    Block(addr, word - word % 2, word % 2 == 1)
  }

  /** Decoding the word of a block whose size leaves bit 0 free gives the block back. */
  lemma DecodeWord(b: Block)
    requires b.size % 2 == 0
    ensures Decode(b.addr, Word(b)) == b
  {
  }

  /** `size |= 1`: sets bit 0 and no other bit of the word. */
  function Mark(b: Block): (r: Block)
    ensures r.inUse && r.addr == b.addr && r.size == b.size
    ensures b.size % 2 == 0 ==> Word(r) % 2 == 1 && Word(r) / 2 == Word(b) / 2
  {
    b.(inUse := true)
  }

  /** `size &= ~1`: clears bit 0 and no other bit of the word. */
  function Unmark(b: Block): (r: Block)
    ensures !r.inUse && r.addr == b.addr && r.size == b.size
    ensures b.size % 2 == 0 ==> Word(r) % 2 == 0 && Word(r) / 2 == Word(b) / 2
  {
    b.(inUse := false)
  }

  /** Bytes a block takes in the pool: header plus payload. */
  function Footprint(b: Block): nat
  {
    H + b.size
  }

  /** First address after the block's payload. */
  function End(b: Block): nat
  {
    b.addr + Footprint(b)
  }

  /** The two blocks' byte ranges do not intersect. */
  predicate Apart(x: Block, y: Block)
  {
    End(x) <= y.addr || End(y) <= x.addr
  }

  /** The header of `b2` sits right after the payload of `b1`, as MergeBlocks tests it on the raw word. */
  predicate Contiguous(b1: Block, b2: Block)
  {
    b1.addr + H + Word(b1) == b2.addr
  }

  /** Address handed to the caller: the payload just after the header. */
  function PayloadAddr(b: Block): nat
  {
    b.addr + H
  }

  /** Header address recovered from a payload pointer (`mem - BLOCK_HEADER_SIZE`). */
  function HeaderAddr(mem: nat): (a: nat)
    requires mem >= H
    ensures forall b: Block :: b.addr == a <==> PayloadAddr(b) == mem
  {
    mem - H
  }

}
