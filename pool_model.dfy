/** The state of a `PoolAllocator` as a value, and what each of its
    operations does to that value. `Pool.PoolAllocator` is proved against
    these functions, and `PoolLemmas` states what they guarantee together. */
module PoolModel {
  import opened Wrappers
  import opened Allocator

  /** Default `minBlockSize` set by the `PoolAllocator` constructor. */
  const DefaultMinBlockSize: SizeT := 4096

  /** One `MemBlockNode` of the chain: the size of its data region and how
      many bytes of it are still free. Its `next` link is its position in
      the chain, and its data is addressed by `Ptr` offsets. */
  datatype Block = Block(size: SizeT, free: SizeT) {
    predicate Valid() { free <= size }

    /** `MemBlockNode::Used()`: the bytes handed out from this block. */
    function Used(): (u: nat)
      requires Valid()
      ensures u <= size
      ensures free == size - u
    {
      size - free
    }
  }

  /** A pointer into the pool: byte `offset` of the data region of block
      number `block` (counted from `firstBlock`), or NULL. */
  datatype Ptr = Null | At(block: nat, offset: nat)

  /** The allocator's state: the configured minimum block size and the
      block chain, `firstBlock` first. The current block is the last one and
      the cursor `currMem` is determined by it (see `Cursor`). */
  datatype PoolState = PoolState(minBlockSize: SizeT, blocks: seq<Block>)

  predicate ValidBlocks(blocks: seq<Block>) {
    forall b :: 0 <= b < |blocks| ==> blocks[b].Valid()
  }

  /** Every block has handed out a whole number of 8-byte units. */
  predicate Aligned(blocks: seq<Block>)
    requires ValidBlocks(blocks)
  {
    forall b :: 0 <= b < |blocks| ==> blocks[b].Used() % 8 == 0
  }

  /** The invariant every reachable state keeps: `free <= size` in every
      block, and the bytes used in it are a multiple of 8. */
  predicate Inv(p: PoolState) {
    ValidBlocks(p.blocks) && Aligned(p.blocks)
  }

  /** The state after construction, or after `Init()`: no block at all. */
  function Empty(minBlockSize: SizeT): PoolState {
    PoolState(minBlockSize, [])
  }

  /** `currBlock`: the tail of the chain, NULL when there is none. */
  function CurrBlock(p: PoolState): Option<nat> {
    if p.blocks == [] then None else Some(|p.blocks| - 1)
  }

  /** `currMem`: the first byte after what the current block has handed out. */
  function Cursor(p: PoolState): Ptr
    requires Inv(p)
  {
    if p.blocks == [] then Null
    else At(|p.blocks| - 1, p.blocks[|p.blocks| - 1].Used())
  }

  /** The condition under which `Alloc` starts a new block for a rounded request. */
  predicate NeedsBlock(p: PoolState, rounded: nat) {
    p.blocks == [] || p.blocks[|p.blocks| - 1].free < rounded
  }

  /** A byte range `[m.offset, m.offset + len)` lies in the used part of its block. */
  predicate InUse(p: PoolState, m: Ptr, len: nat)
    requires Inv(p)
  {
    m.At? && m.block < |p.blocks| && m.offset + len <= p.blocks[m.block].Used()
  }

  /** Two byte ranges share no byte (NULL designates no byte). */
  predicate Disjoint(m: Ptr, mlen: nat, n: Ptr, nlen: nat) {
    m.Null? || n.Null? || m.block != n.block || m.offset + mlen <= n.offset || n.offset + nlen <= m.offset
  }

  /** `AllocBlock(minSize)`: appends a block of `max(minBlockSize,
      RoundUpTo8(minSize))` bytes, all free, which becomes the current block.
      (As written, the source links it with `currBlock->next = node` even
      when `currBlock` is NULL; see `PoolFindings.AllocBlockAsWritten`.) */
  function AllocBlock(p: PoolState, minSize: SizeT): (r: PoolState)
    requires minSize <= SIZE_MAX - 7
    ensures r.minBlockSize == p.minBlockSize
    ensures |r.blocks| == |p.blocks| + 1 && r.blocks[..|p.blocks|] == p.blocks
    ensures var b := r.blocks[|p.blocks|];
            b.free == b.size &&
            b.size >= p.minBlockSize && b.size >= RoundUpTo8(minSize) &&
            (b.size == p.minBlockSize || b.size == RoundUpTo8(minSize))
    ensures Inv(p) ==> Inv(r) && CurrBlock(r) == Some(|p.blocks|) && Cursor(r) == At(|p.blocks|, 0)
  {
    var rounded := RoundUpTo8(minSize);
    var size := if rounded > p.minBlockSize then rounded else p.minBlockSize;
    PoolState(p.minBlockSize, p.blocks + [Block(size, size)])
  }

  /** `Alloc(size)`: reserves `RoundUpTo8(size)` bytes at the cursor of the
      current block, first starting a new block when there is none or the
      current one has too little free room. Returns the new state and the
      location handed out. */
  function Alloc(p: PoolState, size: SizeT): (r: (PoolState, Ptr))
    requires Inv(p) && size <= SIZE_MAX - 7
    ensures Inv(r.0) && r.0.minBlockSize == p.minBlockSize
    // the reservation fits: it lies in the used part of one block ...
    ensures InUse(r.0, r.1, RoundUpTo8(size))
    // at an 8-byte aligned offset from the start of the block's data
    ensures r.1.offset % 8 == 0
    // ... and starts after every byte used before, so it overlaps none of them
    ensures r.1.block < |p.blocks| ==> r.1.offset >= p.blocks[r.1.block].Used()
    // usage only grows; no block is dropped
    ensures |r.0.blocks| >= |p.blocks|
    ensures forall b :: 0 <= b < |p.blocks| ==> r.0.blocks[b].size == p.blocks[b].size && r.0.blocks[b].free <= p.blocks[b].free
    // enough room in the current block: the cursor is returned and bumped,
    // and the current block's free count drops by exactly the rounded size
    ensures !NeedsBlock(p, RoundUpTo8(size)) ==>
              r.1 == Cursor(p) &&
              |r.0.blocks| == |p.blocks| &&
              r.0.blocks[r.1.block].free == p.blocks[r.1.block].free - RoundUpTo8(size) &&
              (forall b :: 0 <= b < |p.blocks| && b != r.1.block ==> r.0.blocks[b] == p.blocks[b]) &&
              Cursor(r.0) == At(r.1.block, r.1.offset + RoundUpTo8(size))
    // otherwise a new block of max(minBlockSize, rounded size) is appended
    // and the request is carved from its start
    ensures NeedsBlock(p, RoundUpTo8(size)) ==>
              r.1 == At(|p.blocks|, 0) &&
              r.0.blocks[..|p.blocks|] == p.blocks &&
              |r.0.blocks| == |p.blocks| + 1 &&
              r.0.blocks[|p.blocks|].size == AllocBlock(p, RoundUpTo8(size)).blocks[|p.blocks|].size &&
              r.0.blocks[|p.blocks|].Used() == RoundUpTo8(size) &&
              Cursor(r.0) == At(|p.blocks|, RoundUpTo8(size))
  {
    var rounded := RoundUpTo8(size);
    RoundUpTo8Idempotent(size);
    var q := if NeedsBlock(p, rounded) then AllocBlock(p, rounded) else p;
    var c := |q.blocks| - 1;
    var b := q.blocks[c];
    (PoolState(q.minBlockSize, q.blocks[c := Block(b.size, b.free - rounded)]), Cursor(q))
  }

  /** Every size of a sequence of requests can be rounded without wrapping. */
  predicate AllRoundable(sizes: seq<SizeT>) {
    forall i :: 0 <= i < |sizes| ==> sizes[i] <= SIZE_MAX - 7
  }

  /** The requests `sizes` made one after the other with `Alloc`: the final
      state and the location each request received. */
  function AllocSeq(p: PoolState, sizes: seq<SizeT>): (r: (PoolState, seq<Ptr>))
    requires Inv(p) && AllRoundable(sizes)
    ensures Inv(r.0) && r.0.minBlockSize == p.minBlockSize
    ensures |r.1| == |sizes|
    decreases |sizes|
  {
    if sizes == [] then (p, [])
    else
      var prev := AllocSeq(p, sizes[..|sizes| - 1]);
      var next := Alloc(prev.0, sizes[|sizes| - 1]);
      (next.0, prev.1 + [next.1])
  }

  /** Pieces of `piece` bytes held by a block: `Used() / size`. */
  function Pieces(b: Block, piece: nat): nat
    requires b.Valid() && piece > 0
  {
    b.Used() / piece
  }

  /** Pieces of `piece` bytes held by the blocks from number `i` on. */
  function TotalPieces(blocks: seq<Block>, piece: nat, i: nat): nat
    requires ValidBlocks(blocks) && piece > 0 && i <= |blocks|
    decreases |blocks| - i
  {
    if i == |blocks| then 0 else Pieces(blocks[i], piece) + TotalPieces(blocks, piece, i + 1)
  }

  /** The walk of `FindNthPieceOfSize` from block number `i` on, looking for
      piece `n` of `piece` bytes: a block holding more than `n` pieces holds
      it at offset `n * piece`; otherwise its pieces are skipped. */
  function FindNthFrom(blocks: seq<Block>, piece: nat, n: nat, i: nat): Ptr
    requires ValidBlocks(blocks) && piece > 0 && i <= |blocks|
    decreases |blocks| - i
  {
    if i == |blocks| then Null
    else if Pieces(blocks[i], piece) > n then At(i, n * piece)
    else FindNthFrom(blocks, piece, n - Pieces(blocks[i], piece), i + 1)
  }

  /** `FindNthPieceOfSize(size, n)`, with the divisor the doc comment intends:
      the location of the `n`-th piece of `RoundUpTo8(size)` bytes when the
      pool is read as one flat array, or NULL past its end. A zero `size`
      rounds to 0 and would divide by zero, so it is excluded. */
  function FindNth(p: PoolState, size: SizeT, n: nat): (r: Ptr)
    requires Inv(p) && 0 < size <= SIZE_MAX - 7
    ensures r == Null <==> n >= TotalPieces(p.blocks, RoundUpTo8(size), 0)
    ensures r.At? ==> InUse(p, r, RoundUpTo8(size))
  {
    FindNthFromBounds(p.blocks, RoundUpTo8(size), n, 0);
    FindNthFrom(p.blocks, RoundUpTo8(size), n, 0)
  }

  /** `(u / piece) * piece <= u`, and one more piece does not fit below `u`
      exactly when the index reaches `u / piece`. */
  lemma PieceFits(u: nat, piece: nat, n: nat)
    requires piece > 0 && n < u / piece
    ensures n * piece + piece <= u
  {
    var q := u / piece;
    assert q * piece <= u;
    assert n + 1 <= q;
    assert (n + 1) * piece <= q * piece;
  }

  /** The lookup is NULL exactly past the last piece, and otherwise it names a
      location whose whole piece lies in the used part of its block. */
  lemma {:induction false} FindNthFromBounds(blocks: seq<Block>, piece: nat, n: nat, i: nat)
    requires ValidBlocks(blocks) && piece > 0 && i <= |blocks|
    ensures FindNthFrom(blocks, piece, n, i) == Null <==> n >= TotalPieces(blocks, piece, i)
    ensures var m := FindNthFrom(blocks, piece, n, i);
            m.At? ==> i <= m.block < |blocks| && m.offset + piece <= blocks[m.block].Used()
    decreases |blocks| - i
  {
    if i < |blocks| {
      var k := Pieces(blocks[i], piece);
      if k > n {
        PieceFits(blocks[i].Used(), piece, n);
      } else {
        FindNthFromBounds(blocks, piece, n - k, i + 1);
      }
    }
  }
}

