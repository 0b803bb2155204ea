# SumatraPDF allocator core, modelled in Dafny

This project models `src/utils/Allocator.h` of SumatraPDF as a set of Dafny
modules and proves the properties the header's code and comments promise.
The header holds three pieces of allocator code:

- `PoolAllocator`, a bump-pointer arena. It keeps a chain of `MemBlockNode`s,
  each with a `size` and a `free` count. `Alloc` rounds every request up to
  a multiple of 8 and carves it from the current block at the cursor
  `currMem`. When there is no current block, or it has too little room, it
  first appends a block of `max(minBlockSize, rounded size)` bytes.
  `FreeAll` drops the whole chain, `Free` does nothing and `Realloc` always
  crashes.
- `RoundUpTo8` and `Allocator::Dup`, a copy into a padded allocation.
- `FixedArray<T, StackBufInBytes>`, which chooses between an inline buffer
  and a heap buffer by the element count.

Modules and files:

- `wrappers.dfy` (`Wrappers`) holds `Option` and `Outcome`. `Outcome.Crash`
  stands for a fatal `CrashIf`/`CrashAlwaysIf`, or for undefined behaviour
  the code would hit.
- `allocator.dfy` (`Allocator`) holds the `size_t` range (64 bits),
  `RoundUpTo8` and `Dup`.
- `pool_model.dfy` (`PoolModel`) gives the pool's state as a value: the
  minimum block size and the chain as a sequence of `Block(size, free)`.
  It defines `AllocBlock`, `Alloc` and the intended `FindNth` as functions
  of that value.
  - A pointer is `Ptr.At(block, offset)`: block number `block`, counted from
    `firstBlock`, and a byte offset into that block's data region.
    `Ptr.Null` stands for NULL.
  - The current block is the tail of the chain, and the cursor is always at
    `Used()` of that block.
- `pool_lemmas.dfy` (`PoolLemmas`) proves that allocations never overlap,
  and that in homogeneous use the flat lookup finds the i-th allocation.
- `pool.dfy` (`Pool`) holds the class `PoolAllocator`. Its fields
  (`minBlockSize`, the chain, `firstBlock`, `currBlock`, `currMem`) are
  updated in place, as in the header. Every state-changing method except
  the helper `Init` is proved against the `PoolModel` functions and keeps
  the object invariant `Valid()`. `Init`, like the header's `Init()`, only
  resets the pointers, and `FreeAll` drops the chain before calling it.
  `Free` and `Realloc` change nothing and have no `PoolModel` counterpart.
  `FindNthPieceOfSize` keeps the source's `while` walk over the chain.
- `pool_findings.dfy` (`PoolFindings`) models two defects as written and
  gives a concrete input for each (see "## Findings").
- `fixed_array.dfy` (`FixedArrays`) holds the class `FixedArray`.

In these places the model follows the code rather than its comments:

- The comment at `Allocator.h:96` says the minimum block size "can only be
  changed before first allocation". The code refuses the change only while
  a current block exists, so it is legal again after `FreeAll`
  (`Allocator.h:95-98`).
- The comment at `Allocator.h:185` says elements go on the stack "if they
  fit within StackBufInBytes", a byte comparison. The code tests
  `elCount > StackBufInBytes / sizeof(T)` (`Allocator.h:195-196`).
  `HeapExactlyWhenOverBudget` proves the two are the same test.
- The two defects below are modelled as the code intends. Their as-written
  behaviour is kept separately, in `PoolFindings`.

## Model

| member | source | states |
|---|---|---|
| `Allocator.RoundUpTo8` | src/utils/Allocator.h:49-52 | the result is a multiple of 8 with `n <= r < n + 8`, and it stays within `size_t` |
| `Allocator.RoundUpTo8IsLeast` | src/utils/Allocator.h:49-52 | no smaller multiple of 8 is at least `n` |
| `Allocator.RoundUpTo8Idempotent` | src/utils/Allocator.h:115 | rounding the already rounded size again (as `AllocBlock` does for `Alloc`) changes nothing |
| `Allocator.Dup` | src/utils/Allocator.h:41-46 | NULL exactly when the allocation fails; otherwise `size + padding` bytes whose first `size` are `mem[0..size]`, with the padding left as allocated |
| `PoolModel.Block.Used` | src/utils/Allocator.h:73 | the used bytes never exceed the block size, and `free` is what remains |
| `PoolModel.AllocBlock` | src/utils/Allocator.h:114-127 | appends one entirely free block of `max(minBlockSize, RoundUpTo8(minSize))` bytes after the existing chain, leaving that chain unchanged; it becomes the current block with the cursor at its start, also on an empty pool |
| `PoolModel.Alloc` | src/utils/Allocator.h:142-151 | see the list below the table |
| `PoolModel.AllocSeq` | src/utils/Allocator.h:142-151 | a run of `Alloc` calls keeps the invariant and returns one location per request |
| `PoolModel.FindNth` | src/utils/Allocator.h:153-168 | NULL exactly when the index is at or past the total piece count; otherwise the whole piece lies in the used part of one block |
| `PoolModel.FindNthFromBounds` | src/utils/Allocator.h:158-167 | the same two facts for the walk started at any block of the chain |
| `PoolLemmas.AllocKeepsSeparate` | src/utils/Allocator.h:142-151 | one more `Alloc` keeps every earlier piece inside the used part of its block and overlaps none of them |
| `PoolLemmas.AllocSeqDisjoint` | src/utils/Allocator.h:142-151 | every location handed out by successive allocations lies inside one block's used part, and no two overlap |
| `PoolLemmas.HomogeneousRoundTrip` | src/utils/Allocator.h:153-168 | after allocations all of one size from an empty pool, the intended lookup of index `i` equals the `i`-th returned location, and it is NULL for every index past the last |
| `Pool.PoolAllocator.Init` | src/utils/Allocator.h:82-86 | `firstBlock`, `currBlock` and `currMem` become NULL; the other fields are kept |
| `Pool.PoolAllocator.constructor` | src/utils/Allocator.h:90-93 | the empty pool with minimum block size 4096, satisfying the invariant |
| `Pool.PoolAllocator.SetMinBlockSize` | src/utils/Allocator.h:95-98 | crashes exactly when a current block exists, and then changes nothing; otherwise sets the minimum on the still-empty pool |
| `Pool.PoolAllocator.FreeAll` | src/utils/Allocator.h:100-108 | leaves the empty initial state with the same minimum block size, so a second call changes nothing |
| `Pool.PoolAllocator.AllocBlock` | src/utils/Allocator.h:114-127 | the new state is `PoolModel.AllocBlock` of the old one, with `firstBlock` being the head and `currBlock` the new tail |
| `Pool.PoolAllocator.Realloc` | src/utils/Allocator.h:130-136 | always fatal |
| `Pool.PoolAllocator.Free` | src/utils/Allocator.h:138-140 | changes nothing |
| `Pool.PoolAllocator.Alloc` | src/utils/Allocator.h:142-151 | the new state and the returned location are those of `PoolModel.Alloc`, and the invariant is kept |
| `Pool.PoolAllocator.FindNthPieceOfSize` | src/utils/Allocator.h:153-168 | the block-by-block walk returns exactly the intended flat lookup `PoolModel.FindNth` |
| `PoolFindings.AllocBlockAsWritten` | src/utils/Allocator.h:125 | as written, faults on a NULL dereference exactly when there is no current block; otherwise it agrees with the intended `AllocBlock` |
| `PoolFindings.FirstAllocCrashesAsWritten` | src/utils/Allocator.h:120-127 | the first allocation of any pool needs a block, and as written creating it faults; the intended version makes it the head and current block |
| `PoolFindings.FindNthFromAsWritten` | src/utils/Allocator.h:158-166 | as written, the walk divides by the index, so index 0 at any block faults with division by zero |
| `PoolFindings.FindNthAsWritten` | src/utils/Allocator.h:155-168 | as written, index 0 on a non-empty pool divides by zero |
| `PoolFindings.FindNthAsWrittenMisses` | src/utils/Allocator.h:159-161 | shows a pool reachable once line 125 is corrected (two full 16-byte blocks of 8-byte pieces) where, as written, index 2 points past the used bytes of block 0; the intended lookup finds the third allocation at block 1, offset 0 |
| `FixedArrays.HeapExactlyWhenOverBudget` | src/utils/Allocator.h:195-196 | `elCount > StackBufInBytes / sizeof(T)` holds exactly when the elements need more bytes than the inline budget |
| `FixedArrays.FixedArray.constructor` | src/utils/Allocator.h:193-198 | a heap buffer of exactly `elCount` elements is made exactly when `elCount` exceeds the inline capacity; otherwise `memBuf` stays NULL |
| `FixedArrays.FixedArray.Get` | src/utils/Allocator.h:204-208 | returns a buffer with room for `elCount` elements; it is the inline buffer exactly when `elCount * sizeof(T)` fits the budget, and otherwise it is `memBuf` |

`PoolModel.Alloc` (src/utils/Allocator.h:142-151) states these properties:

- It keeps the invariant: `free <= size` in every block, with the used
  bytes a multiple of 8.
- The returned range of `RoundUpTo8(size)` bytes is 8-aligned and lies in
  the used part of one block. It starts after every byte used before it.
- No block is dropped, and no block's usage shrinks.
- When the current block has room, the old cursor is returned. The cursor
  then moves forward by the rounded size, and that block's `free` drops by
  exactly the same amount. Every other block is unchanged.
- Otherwise a block of `max(minBlockSize, rounded size)` bytes is appended,
  and the request is carved from its start.

## Left out

- Heap calls: `malloc`, `calloc`, `realloc` and `free` are not modelled, and
  neither is running out of memory. A new block always exists, even though
  the source never checks `calloc`'s NULL result (line 119).
- `FreeAll`: the walk that `free()`s each node (lines 101-106) becomes
  dropping the whole chain at once. Without a heap model there is nothing
  for each step to change.
- Destructors: `~PoolAllocator` only calls `FreeAll`, and `~FixedArray`
  only calls `free` (lines 110-112, 200-202). Neither is modelled.
- The abstract `Allocator` class, virtual dispatch and the static
  `Alloc`/`Free`/`Realloc` fallbacks to libc (lines 12-39) are not
  modelled. `Dup` receives the outcome of its allocation as the parameter
  `newMem`.
- `GetAtPtr<T>` and `AllocStruct<T>` are not modelled. They only cast the
  results of `FindNthPieceOfSize` and `Alloc`, with `sizeof(T)` passed as
  the size.
- Memory contents: blocks are zero-filled by `calloc`, but the model tracks
  only sizes and offsets. `Dup` is the exception.
- Raw addresses: a pointer is a (block, offset) pair. This rules out the
  aliasing of unrelated memory, and the model cannot state that a block's
  start address is 8-aligned.
- Thread safety: the code does none.
- Crashes: `CrashIf`/`CrashAlwaysIf` become an `Outcome.Crash` result.
  That the process stops there is not modelled.
- Allocator.RoundUpTo8: requires `n <= SIZE_MAX - 7`. For larger `n` the
  source's `n + 8 - 1` wraps around and the result is 0. `Alloc`,
  `AllocBlock` and `FindNthPieceOfSize` inherit this precondition.
- Allocator.SIZE_MAX: `size_t` is taken to be 64 bits wide. 32-bit builds
  are not modelled; there `RoundUpTo8` already wraps to 0 for
  `n > 2^32 - 8`, so the bound `SIZE_MAX - 7` is too loose for them.
- Allocator.Dup: requires that `size + padding` does not wrap around
  `size_t`.
- PoolModel.FindNth: requires `size > 0`. A zero size rounds to 0, and even
  the corrected per-block count `Used() / RoundUpTo8(size)` would then
  divide by zero. `Pool.PoolAllocator.FindNthPieceOfSize` has the same
  precondition.
- FixedArrays.FixedArray.constructor: the model does not cover
  `elCount * sizeof(T)` wrapping around in the `malloc` argument. It also
  does not cover `malloc` returning NULL, after which `Get` would quietly
  return the too-small inline buffer. The template parameters `T`'s size
  and `StackBufInBytes` become constructor arguments.

## Findings

| source | as written | input that shows it | evidently intended | confidence | as-written member | corrected member |
|---|---|---|---|---|---|---|
| src/utils/Allocator.h:125 | `currBlock->next = node;` also runs when `currBlock` is NULL | the first `Alloc` on any new pool: `currBlock` is NULL, so `AllocBlock` writes through NULL | link the new node after the tail only when there is one; otherwise the new node becomes the head | not executed; high | `PoolFindings.AllocBlockAsWritten` (shown by `PoolFindings.FirstAllocCrashesAsWritten`) | `PoolModel.AllocBlock` |
| src/utils/Allocator.h:159 | `piecesInBlock = curr->Used() / n;` divides by the index | with the line-125 defect corrected: minimum block size 16, then four `Alloc(8)`. `FindNthPieceOfSize(8, 2)` returns offset 16 of block 0, past its used bytes, instead of offset 0 of block 1. `FindNthPieceOfSize(8, 0)` divides by zero | `Used() / size` pieces per block, as the doc comment at lines 153-154 says | not executed; high | `PoolFindings.FindNthAsWritten` (shown by `PoolFindings.FindNthAsWrittenMisses`) | `PoolLemmas.HomogeneousRoundTrip` |

The line-159 defect is hidden behind the line-125 one. As written, the
first `Alloc` of every pool already faults at line 125, so no pool ever
holds a block, and `FindNthPieceOfSize` only walks an empty chain. The
pool that exposes line 159 exists only once line 125 is corrected.
