/** Two places where `PoolAllocator` as written does not do what it
    evidently means to, each shown on a concrete input. The rest of the
    model uses the intended behaviour (`PoolModel.AllocBlock`,
    `PoolModel.FindNth`). */
module PoolFindings {
  import opened Wrappers
  import opened Allocator
  import opened PoolModel
  import opened PoolLemmas

  /** `AllocBlock` as written: after building the node it executes
      `currBlock->next = node`, which dereferences NULL whenever there is no
      current block yet, i.e. on the first block of every pool. */
  function AllocBlockAsWritten(p: PoolState, minSize: SizeT): (r: Outcome<PoolState, Fault>)
    requires Inv(p) && minSize <= SIZE_MAX - 7
    ensures r.Crash? <==> CurrBlock(p).None?
    ensures r.Crash? ==> r.fault == NullDereference
    ensures r.Ok? ==> r.value == AllocBlock(p, minSize)
  {
    if CurrBlock(p).None? then Crash(NullDereference) else Ok(AllocBlock(p, minSize))
  }

  /** As written, the very first allocation of any pool needs a block and
      that block's creation faults; the intended `AllocBlock` makes it the
      head and the current block instead. */
  lemma FirstAllocCrashesAsWritten(minBlockSize: SizeT, size: SizeT)
    requires size <= SIZE_MAX - 7
    ensures NeedsBlock(Empty(minBlockSize), RoundUpTo8(size))
    ensures AllocBlockAsWritten(Empty(minBlockSize), RoundUpTo8(size)) == Crash(NullDereference)
    ensures var q := AllocBlock(Empty(minBlockSize), RoundUpTo8(size));
            |q.blocks| == 1 && CurrBlock(q) == Some(0) && Cursor(q) == At(0, 0)
  {
  }

  /** The walk of `FindNthPieceOfSize` as written: the pieces of a block are
      counted as `Used() / n`, dividing by the index rather than by the piece
      size, so `n == 0` at any block divides by zero. */
  function FindNthFromAsWritten(blocks: seq<Block>, piece: nat, n: nat, i: nat): (r: Outcome<Ptr, Fault>)
    requires ValidBlocks(blocks) && i <= |blocks|
    ensures r.Crash? ==> r.fault == DivisionByZero
    ensures n == 0 && i < |blocks| ==> r.Crash?
    decreases |blocks| - i
  {
    if i == |blocks| then Ok(Null)
    else if n == 0 then Crash(DivisionByZero)
    else
      var piecesInBlock := blocks[i].Used() / n;
      if piecesInBlock > n then Ok(At(i, n * piece))
      else FindNthFromAsWritten(blocks, piece, n - piecesInBlock, i + 1)
  }

  /** `FindNthPieceOfSize(size, n)` as written. */
  function FindNthAsWritten(p: PoolState, size: SizeT, n: nat): (r: Outcome<Ptr, Fault>)
    requires Inv(p) && size <= SIZE_MAX - 7
    ensures p.blocks != [] && n == 0 ==> r == Crash(DivisionByZero)
  {
    FindNthFromAsWritten(p.blocks, RoundUpTo8(size), n, 0)
  }

  /** The four steps of filling two 16-byte blocks with 8-byte pieces. */
  lemma FirstPiece()
    ensures Alloc(Empty(16), 8) == (PoolState(16, [Block(16, 8)]), At(0, 0))
  {
    assert RoundUpTo8(8) == 8;
    var a := Alloc(Empty(16), 8);
    assert a.0.blocks[0] == Block(16, 8);
    assert a.0.blocks == [Block(16, 8)];
  }

  lemma SecondPiece()
    ensures Alloc(PoolState(16, [Block(16, 8)]), 8) == (PoolState(16, [Block(16, 0)]), At(0, 8))
  {
    assert RoundUpTo8(8) == 8;
    var a := Alloc(PoolState(16, [Block(16, 8)]), 8);
    assert a.0.blocks[0] == Block(16, 0);
    assert a.0.blocks == [Block(16, 0)];
  }

  lemma ThirdPiece()
    ensures Alloc(PoolState(16, [Block(16, 0)]), 8) == (PoolState(16, [Block(16, 0), Block(16, 8)]), At(1, 0))
  {
    assert RoundUpTo8(8) == 8;
    var p := PoolState(16, [Block(16, 0)]);
    assert NeedsBlock(p, 8);
    var q := AllocBlock(p, 8);
    assert q.blocks[1] == Block(16, 16);
    assert q.blocks == [Block(16, 0), Block(16, 16)];
    var a := Alloc(p, 8);
    assert a.0.blocks[0] == Block(16, 0) && a.0.blocks[1] == Block(16, 8);
    assert a.0.blocks == [Block(16, 0), Block(16, 8)];
  }

  lemma FourthPiece()
    ensures Alloc(PoolState(16, [Block(16, 0), Block(16, 8)]), 8) == (PoolState(16, [Block(16, 0), Block(16, 0)]), At(1, 8))
  {
    assert RoundUpTo8(8) == 8;
    var a := Alloc(PoolState(16, [Block(16, 0), Block(16, 8)]), 8);
    assert a.0.blocks[0] == Block(16, 0) && a.0.blocks[1] == Block(16, 0);
    assert a.0.blocks == [Block(16, 0), Block(16, 0)];
  }

  /** Four 8-byte allocations from a pool with 16-byte blocks fill two
      blocks. This uses the corrected `AllocBlock`: as written, the first
      allocation already faults (`FirstAllocCrashesAsWritten`). */
  lemma TwoFullBlocks()
    ensures AllRoundable([8, 8, 8, 8])
    ensures AllocSeq(Empty(16), [8, 8, 8, 8]) ==
              (PoolState(16, [Block(16, 0), Block(16, 0)]), [At(0, 0), At(0, 8), At(1, 0), At(1, 8)])
  {
    var sizes: seq<SizeT> := [8, 8, 8, 8];
    assert AllRoundable(sizes);
    FirstPiece();
    SecondPiece();
    ThirdPiece();
    FourthPiece();
    var s1: seq<SizeT>, s2: seq<SizeT>, s3: seq<SizeT> := [8], [8, 8], [8, 8, 8];
    assert s1[..0] == [] && s2[..1] == s1 && s3[..2] == s2 && sizes[..3] == s3;
    assert AllocSeq(Empty(16), s1[..0]) == (Empty(16), []);
    assert AllocSeq(Empty(16), s1) == (PoolState(16, [Block(16, 8)]), [] + [At(0, 0)]);
    assert [] + [At(0, 0)] == [At(0, 0)];
    assert AllocSeq(Empty(16), s2) == (PoolState(16, [Block(16, 0)]), [At(0, 0)] + [At(0, 8)]);
    assert [At(0, 0)] + [At(0, 8)] == [At(0, 0), At(0, 8)];
    assert AllocSeq(Empty(16), s3) == (PoolState(16, [Block(16, 0), Block(16, 8)]), [At(0, 0), At(0, 8)] + [At(1, 0)]);
    assert [At(0, 0), At(0, 8)] + [At(1, 0)] == [At(0, 0), At(0, 8), At(1, 0)];
    assert [At(0, 0), At(0, 8), At(1, 0)] + [At(1, 8)] == [At(0, 0), At(0, 8), At(1, 0), At(1, 8)];
    assert AllocSeq(Empty(16), sizes) == (PoolState(16, [Block(16, 0), Block(16, 0)]), [At(0, 0), At(0, 8), At(1, 0)] + [At(1, 8)]);
  }

  /** On the pool of `TwoFullBlocks`, piece 2 is the start of the second
      block, and the intended lookup finds it there; as written the lookup
      answers offset 16 of the first block, a location beyond everything
      that block has handed out. Piece 0 divides by zero. */
  lemma FindNthAsWrittenMisses()
    ensures AllRoundable([8, 8, 8, 8])
    ensures var r := AllocSeq(Empty(16), [8, 8, 8, 8]);
            r.1[2] == At(1, 0) &&
            FindNth(r.0, 8, 2) == At(1, 0) &&
            FindNthAsWritten(r.0, 8, 2) == Ok(At(0, 16)) &&
            !InUse(r.0, At(0, 16), 8) &&
            FindNthAsWritten(r.0, 8, 0) == Crash(DivisionByZero)
  {
    TwoFullBlocks();
    var blocks := [Block(16, 0), Block(16, 0)];
    assert RoundUpTo8(8) == 8;
    assert blocks[0].Used() == 16 && blocks[1].Used() == 16;
    assert Pieces(blocks[0], 8) == 2 && Pieces(blocks[1], 8) == 2;
    assert blocks[0].Used() / 2 == 8;
    assert FindNthFrom(blocks, 8, 0, 1) == At(1, 0);
    assert FindNthFrom(blocks, 8, 2, 0) == At(1, 0);
    assert FindNthFromAsWritten(blocks, 8, 2, 0) == Ok(At(0, 16));
  }
}
