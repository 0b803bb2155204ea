/** `PoolAllocator`: a bump-pointer arena over a chain of blocks. Its fields
    are updated in place as in the source; every method is proved against
    the value-level functions of `PoolModel`. */
module Pool {
  import opened Wrappers
  import opened Allocator
  import opened PoolModel

  class PoolAllocator {
    // new blocks have at least this many bytes of data
    var minBlockSize: SizeT
    // the chain of `MemBlockNode`s from `firstBlock`, following `next`
    var blocks: seq<Block>
    // `firstBlock` and `currBlock` as positions in the chain, `None` for NULL
    var firstBlock: Option<nat>
    var currBlock: Option<nat>
    // `currMem`: the bump cursor
    var currMem: Ptr

    function State(): PoolState
      reads this
    {
      PoolState(minBlockSize, blocks)
    }

    /** The object invariant: the chain keeps `PoolModel.Inv`, `firstBlock`
        is its head, `currBlock` its tail and `currMem` sits at `Used()` of
        the current block. */
    ghost predicate Valid()
      reads this
    {
      Inv(State()) &&
      firstBlock == (if blocks == [] then None else Some(0)) &&
      currBlock == CurrBlock(State()) &&
      currMem == Cursor(State())
    }

    /** The block after number `i` in the chain: its `next` link. */
    function Next(i: nat): Option<nat>
      reads this
    {
      if i + 1 < |blocks| then Some(i + 1) else None
    }

    /** `Init()`: the pointers to NULL; the chain itself is left to the caller. */
    method Init()
      modifies this
      ensures firstBlock == None && currBlock == None && currMem == Null
      ensures minBlockSize == old(minBlockSize) && blocks == old(blocks)
    {
      currBlock := None;
      firstBlock := None;
      currMem := Null;
    }

    /** `PoolAllocator()`: an empty pool with the default minimum block size. */
    constructor ()
      ensures Valid()
      ensures State() == Empty(DefaultMinBlockSize)
    {
      minBlockSize := DefaultMinBlockSize;
      blocks := [];
      new;
      Init();
    }

    /** `SetMinBlockSize(n)`: only allowed before the first block exists;
        afterwards `CrashIf(currBlock)` stops the process. */
    method SetMinBlockSize(newMinBlockSize: SizeT) returns (r: Outcome<(), Fault>)
      requires Valid()
      modifies this
      ensures Valid()
      ensures r.Crash? <==> old(currBlock).Some?
      ensures r.Crash? ==> r.fault == MinBlockSizeAfterAlloc && State() == old(State())
      ensures r.Ok? ==> State() == Empty(newMinBlockSize)
    {
      if currBlock.Some? {
        return Crash(MinBlockSizeAfterAlloc);
      }
      minBlockSize := newMinBlockSize;
      r := Ok(());
    }

    /** `FreeAll()`: drops every block and returns to the empty state, so a
        second call changes nothing and the next allocation behaves as on a
        new pool with the same minimum block size. */
    method FreeAll()
      requires Valid()
      modifies this
      ensures Valid()
      ensures State() == Empty(old(minBlockSize))
    {
      // the source walks the chain from `firstBlock` and free()s every node
      blocks := [];
      Init();
    }

    /** `AllocBlock(minSize)`: appends a new, entirely free block of
        `max(minBlockSize, RoundUpTo8(minSize))` bytes after the tail and
        makes it current, with the cursor at its start. The source links it
        with `currBlock->next = node` also when `currBlock` is NULL, on the
        first block; here the first block simply becomes the head. */
    method AllocBlock(minSize: SizeT)
      requires Valid() && minSize <= SIZE_MAX - 7
      modifies this
      ensures Valid()
      ensures State() == PoolModel.AllocBlock(old(State()), minSize)
    {
      var rounded := RoundUpTo8(minSize);
      var size := minBlockSize;
      if rounded > size {
        size := rounded;
      }
      var node := |blocks|;
      blocks := blocks + [Block(size, size)];
      if firstBlock.None? {
        firstBlock := Some(node);
      }
      currMem := At(node, 0);
      currBlock := Some(node);
    }

    /** `Realloc(mem, size)`: unsupported, since a piece's size is not
        recorded; always fatal. */
    method Realloc(mem: Ptr, size: SizeT) returns (r: Outcome<Ptr, Fault>)
      ensures r == Crash(ReallocUnsupported)
    {
      r := Crash(ReallocUnsupported);
    }

    /** `Free(mem)`: pieces cannot be freed one by one; nothing changes. */
    method Free(mem: Ptr)
      ensures unchanged(this)
    {
    }

    /** `Alloc(size)`: hands out `RoundUpTo8(size)` bytes at the cursor,
        starting a new block first when there is no current block or it has
        too little free room; see `PoolModel.Alloc` for what that implies. */
    method Alloc(size: SizeT) returns (mem: Ptr)
      requires Valid() && size <= SIZE_MAX - 7
      modifies this
      ensures Valid()
      ensures (State(), mem) == PoolModel.Alloc(old(State()), size)
    {
      var rounded := RoundUpTo8(size);
      if currBlock.None? || blocks[currBlock.value].free < rounded {
        RoundUpTo8Idempotent(size);
        AllocBlock(rounded);
      }
      mem := currMem;
      currMem := At(currMem.block, currMem.offset + rounded);
      var c := currBlock.value;
      blocks := blocks[c := Block(blocks[c].size, blocks[c].free - rounded)];
    }

    /** `FindNthPieceOfSize(size, n)` with the divisor its doc comment
        intends: walks the chain counting `Used() / RoundUpTo8(size)` pieces
        per block and returns the location of piece `n`, or NULL past the
        last piece. The source divides by `n` instead (see
        `PoolFindings.FindNthAsWritten`). */
    method FindNthPieceOfSize(size: SizeT, n: SizeT) returns (p: Ptr)
      requires Valid() && 0 < size <= SIZE_MAX - 7
      ensures p == FindNth(State(), size, n)
    {
      var piece := RoundUpTo8(size);
      var curr := firstBlock;
      var idx: nat := n;
      while curr.Some?
        invariant curr.Some? ==> curr.value < |blocks|
        invariant FindNthFrom(blocks, piece, idx, if curr.Some? then curr.value else |blocks|)
                  == FindNthFrom(blocks, piece, n, 0)
        decreases if curr.Some? then |blocks| - curr.value else 0
      {
        var piecesInBlock := blocks[curr.value].Used() / piece;
        if piecesInBlock > idx {
          return At(curr.value, idx * piece);
        }
        idx := idx - piecesInBlock;
        curr := Next(curr.value);
      }
      return Null;
    }
  }
}
