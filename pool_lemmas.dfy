/** What the pool promises across many calls: allocations made one after
    the other never overlap, and in homogeneous use the flat indexing of
    `FindNthPieceOfSize` finds exactly what `Alloc` handed out. */
module PoolLemmas {
  import opened Allocator
  import opened PoolModel

  /** The reserved size of each request. */
  function Rounded(sizes: seq<SizeT>): (lens: seq<nat>)
    requires AllRoundable(sizes)
    ensures |lens| == |sizes|
    ensures forall i :: 0 <= i < |sizes| ==> lens[i] == RoundUpTo8(sizes[i])
  {
    seq(|sizes|, i requires 0 <= i < |sizes| => RoundUpTo8(sizes[i]))
  }

  /** Locations `ptrs` with lengths `lens` all lie in the used part of a block
      of `q`, and no two of them overlap. */
  predicate Separate(q: PoolState, ptrs: seq<Ptr>, lens: seq<nat>)
    requires Inv(q)
  {
    |ptrs| == |lens| &&
    (forall i :: 0 <= i < |ptrs| ==> InUse(q, ptrs[i], lens[i])) &&
    (forall i, j :: 0 <= i < j < |ptrs| ==> Disjoint(ptrs[i], lens[i], ptrs[j], lens[j]))
  }

  /** One more `Alloc` keeps every earlier location in use and hands out a
      location that overlaps none of them. */
  lemma AllocKeepsSeparate(q: PoolState, size: SizeT, ptrs: seq<Ptr>, lens: seq<nat>)
    requires Inv(q) && size <= SIZE_MAX - 7
    requires Separate(q, ptrs, lens)
    ensures Separate(Alloc(q, size).0, ptrs + [Alloc(q, size).1], lens + [RoundUpTo8(size)])
  {
    var a := Alloc(q, size);
    var ptrs', lens' := ptrs + [a.1], lens + [RoundUpTo8(size)];
    forall i | 0 <= i < |ptrs|
      ensures InUse(a.0, ptrs[i], lens[i]) && Disjoint(ptrs[i], lens[i], a.1, RoundUpTo8(size))
    {
      var b := ptrs[i].block;
      assert a.0.blocks[b].size == q.blocks[b].size && a.0.blocks[b].free <= q.blocks[b].free;
    }
    forall i | 0 <= i < |ptrs'| ensures InUse(a.0, ptrs'[i], lens'[i]) {
      if i < |ptrs| { assert ptrs'[i] == ptrs[i] && lens'[i] == lens[i]; }
    }
    forall i, j | 0 <= i < j < |ptrs'| ensures Disjoint(ptrs'[i], lens'[i], ptrs'[j], lens'[j]) {
      assert ptrs'[i] == ptrs[i] && lens'[i] == lens[i];
      if j < |ptrs| { assert ptrs'[j] == ptrs[j] && lens'[j] == lens[j]; }
    }
  }

  /** Every location handed out by a run of `Alloc` calls lies in the used
      part of one block of the final state, and no two of them overlap. */
  lemma {:induction false} AllocSeqDisjoint(p: PoolState, sizes: seq<SizeT>)
    requires Inv(p) && AllRoundable(sizes)
    ensures Separate(AllocSeq(p, sizes).0, AllocSeq(p, sizes).1, Rounded(sizes))
    decreases |sizes|
  {
    if sizes != [] {
      var k := |sizes| - 1;
      var front := sizes[..k];
      assert AllRoundable(front) by {
        forall i | 0 <= i < |front| ensures front[i] <= SIZE_MAX - 7 { assert front[i] == sizes[i]; }
      }
      AllocSeqDisjoint(p, front);
      var prev := AllocSeq(p, front);
      AllocKeepsSeparate(prev.0, sizes[k], prev.1, Rounded(front));
      assert Rounded(sizes) == Rounded(front) + [RoundUpTo8(sizes[k])];
    }
  }

  /** Appending a block to the chain leaves the lookup of every earlier
      piece alone and adds that block's pieces after them. */
  lemma {:induction false} FindNthSnoc(blocks: seq<Block>, b: Block, piece: nat, n: nat, i: nat)
    requires ValidBlocks(blocks) && b.Valid() && piece > 0 && i <= |blocks|
    ensures ValidBlocks(blocks + [b])
    ensures TotalPieces(blocks + [b], piece, i) == TotalPieces(blocks, piece, i) + Pieces(b, piece)
    ensures FindNthFrom(blocks + [b], piece, n, i) ==
              if n < TotalPieces(blocks, piece, i) then FindNthFrom(blocks, piece, n, i)
              else if n - TotalPieces(blocks, piece, i) < Pieces(b, piece)
              then At(|blocks|, (n - TotalPieces(blocks, piece, i)) * piece)
              else Null
    decreases |blocks| - i
  {
    var ext := blocks + [b];
    assert ValidBlocks(ext) by {
      forall j | 0 <= j < |ext| ensures ext[j].Valid() { if j < |blocks| { assert ext[j] == blocks[j]; } }
    }
    if i == |blocks| {
      assert ext[i] == b;
      assert TotalPieces(ext, piece, i + 1) == 0;
    } else {
      assert ext[i] == blocks[i];
      var k := Pieces(blocks[i], piece);
      if k <= n {
        FindNthSnoc(blocks, b, piece, n - k, i + 1);
      } else {
        FindNthSnoc(blocks, b, piece, 0, i + 1);
      }
    }
  }

  /** Exact division: a multiple of `piece` divides back to its factor. */
  lemma MulDiv(k: nat, piece: nat)
    requires piece > 0
    ensures (k * piece) / piece == k && (k * piece) % piece == 0
  {
    var d, m := (k * piece) / piece, (k * piece) % piece;
    assert k * piece == d * piece + m && 0 <= m < piece;
    assert (k - d) * piece == m;
    if k - d >= 1 {
      assert false;
    } else if k - d <= -1 {
      assert false;
    }
  }

  /** A block holding whole pieces, grown by one piece, holds one piece more. */
  lemma PiecesGrow(last: Block, last': Block, piece: nat)
    requires last.Valid() && last'.Valid() && piece > 0
    requires last.Used() % piece == 0 && last'.Used() == last.Used() + piece
    ensures Pieces(last, piece) * piece == last.Used()
    ensures Pieces(last', piece) == Pieces(last, piece) + 1
    ensures last'.Used() % piece == 0
  {
    var k := Pieces(last, piece);
    MulDiv(last.Used() / piece, piece);
    assert last.Used() == k * piece;
    MulDiv(k + 1, piece);
    assert last'.Used() == (k + 1) * piece;
  }

  /** The blocks left by allocations of one size, all made from an empty
      pool: every block holds whole pieces, the pieces add up to the
      allocations made, and flat index `i` finds the `i`-th of them. */
  predicate Homogeneous(blocks: seq<Block>, piece: nat, ptrs: seq<Ptr>)
    requires ValidBlocks(blocks) && piece > 0
  {
    (forall b :: 0 <= b < |blocks| ==> blocks[b].Used() % piece == 0) &&
    TotalPieces(blocks, piece, 0) == |ptrs| &&
    (forall i :: 0 <= i < |ptrs| ==> FindNthFrom(blocks, piece, i, 0) == ptrs[i])
  }

  /** A new block holding one piece, handed out at its start. */
  lemma HomogeneousNewBlock(blocks: seq<Block>, nb: Block, piece: nat, ptrs: seq<Ptr>)
    requires ValidBlocks(blocks) && nb.Valid() && piece > 0
    requires Homogeneous(blocks, piece, ptrs)
    requires nb.Used() == piece
    ensures ValidBlocks(blocks + [nb])
    ensures Homogeneous(blocks + [nb], piece, ptrs + [At(|blocks|, 0)])
  {
    var blocks', ptrs' := blocks + [nb], ptrs + [At(|blocks|, 0)];
    var t := |ptrs|;
    FindNthSnoc(blocks, nb, piece, 0, 0);
    MulDiv(1, piece);
    assert Pieces(nb, piece) == 1;
    forall i | 0 <= i < |ptrs'| ensures FindNthFrom(blocks', piece, i, 0) == ptrs'[i] {
      FindNthSnoc(blocks, nb, piece, i, 0);
      if i < t { assert ptrs'[i] == ptrs[i]; }
    }
    forall b | 0 <= b < |blocks'| ensures blocks'[b].Used() % piece == 0 {
      if b < |blocks| { assert blocks'[b] == blocks[b]; }
    }
  }

  /** Growing the last block by one piece keeps the lookup of every earlier
      index and finds the new piece where the used part ended. */
  lemma GrowLastLookup(front: seq<Block>, last: Block, last': Block, piece: nat, i: nat)
    requires ValidBlocks(front) && last.Valid() && last'.Valid() && piece > 0
    requires Pieces(last, piece) * piece == last.Used()
    requires Pieces(last', piece) == Pieces(last, piece) + 1
    requires i <= TotalPieces(front, piece, 0) + Pieces(last, piece)
    ensures ValidBlocks(front + [last]) && ValidBlocks(front + [last'])
    ensures FindNthFrom(front + [last'], piece, i, 0) ==
              if i < TotalPieces(front, piece, 0) + Pieces(last, piece)
              then FindNthFrom(front + [last], piece, i, 0)
              else At(|front|, last.Used())
  {
    FindNthSnoc(front, last, piece, i, 0);
    FindNthSnoc(front, last', piece, i, 0);
  }

  /** The last block grown by one piece, handed out where its used part ended. */
  lemma HomogeneousGrowLast(front: seq<Block>, last: Block, last': Block, piece: nat, ptrs: seq<Ptr>)
    requires ValidBlocks(front + [last]) && last.Valid() && last'.Valid() && piece > 0
    requires Homogeneous(front + [last], piece, ptrs)
    requires last'.Used() == last.Used() + piece
    ensures ValidBlocks(front + [last'])
    ensures Homogeneous(front + [last'], piece, ptrs + [At(|front|, last.Used())])
  {
    var blocks, blocks' := front + [last], front + [last'];
    var ptrs' := ptrs + [At(|front|, last.Used())];
    assert ValidBlocks(front) by {
      forall b | 0 <= b < |front| ensures front[b].Valid() { assert front[b] == blocks[b]; }
    }
    assert blocks[|front|] == last;
    PiecesGrow(last, last', piece);
    FindNthSnoc(front, last, piece, 0, 0);
    FindNthSnoc(front, last', piece, 0, 0);
    forall i | 0 <= i < |ptrs'| ensures FindNthFrom(blocks', piece, i, 0) == ptrs'[i] {
      GrowLastLookup(front, last, last', piece, i);
      if i < |ptrs| { assert ptrs'[i] == ptrs[i]; }
    }
    assert TotalPieces(blocks', piece, 0) == |ptrs'|;
    forall b | 0 <= b < |blocks'| ensures blocks'[b].Used() % piece == 0 {
      if b < |front| {
        assert blocks'[b] == blocks[b];
      } else {
        assert blocks'[b] == last';
      }
    }
  }

  /** One more allocation of the same size keeps the pool homogeneous, and
      the new piece is found at the next flat index. */
  lemma HomogeneousStep(q: PoolState, size: SizeT, ptrs: seq<Ptr>)
    requires Inv(q) && 0 < size <= SIZE_MAX - 7
    requires Homogeneous(q.blocks, RoundUpTo8(size), ptrs)
    ensures Homogeneous(Alloc(q, size).0.blocks, RoundUpTo8(size), ptrs + [Alloc(q, size).1])
  {
    var r := RoundUpTo8(size);
    var a := Alloc(q, size);
    if NeedsBlock(q, r) {
      var nb := a.0.blocks[|q.blocks|];
      assert a.0.blocks == q.blocks + [nb];
      HomogeneousNewBlock(q.blocks, nb, r, ptrs);
    } else {
      var c := |q.blocks| - 1;
      var front := q.blocks[..c];
      assert q.blocks == front + [q.blocks[c]];
      assert a.0.blocks == front + [a.0.blocks[c]];
      HomogeneousGrowLast(front, q.blocks[c], a.0.blocks[c], r, ptrs);
    }
  }

  /** A run of same-size allocations from an empty pool is homogeneous. */
  lemma {:induction false} HomogeneousRun(minBlockSize: SizeT, sizes: seq<SizeT>, size: SizeT)
    requires 0 < size <= SIZE_MAX - 7
    requires forall j :: 0 <= j < |sizes| ==> sizes[j] == size
    ensures AllRoundable(sizes)
    ensures Homogeneous(AllocSeq(Empty(minBlockSize), sizes).0.blocks, RoundUpTo8(size), AllocSeq(Empty(minBlockSize), sizes).1)
    decreases |sizes|
  {
    if sizes != [] {
      var front := sizes[..|sizes| - 1];
      HomogeneousRun(minBlockSize, front, size);
      var prev := AllocSeq(Empty(minBlockSize), front);
      HomogeneousStep(prev.0, size, prev.1);
    }
  }

  /** Homogeneous use: after allocations all of `size` bytes from an empty
      pool, the intended `FindNthPieceOfSize(size, i)` returns exactly what
      the `i`-th `Alloc` returned, and NULL for every index past the last. */
  lemma HomogeneousRoundTrip(minBlockSize: SizeT, sizes: seq<SizeT>, size: SizeT)
    requires 0 < size <= SIZE_MAX - 7
    requires forall j :: 0 <= j < |sizes| ==> sizes[j] == size
    ensures AllRoundable(sizes)
    ensures var r := AllocSeq(Empty(minBlockSize), sizes);
            forall i :: 0 <= i < |sizes| ==> FindNth(r.0, size, i) == r.1[i]
    ensures var r := AllocSeq(Empty(minBlockSize), sizes);
            forall n: nat :: n >= |sizes| ==> FindNth(r.0, size, n) == Null
  {
    HomogeneousRun(minBlockSize, sizes, size);
  }
}
