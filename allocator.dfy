/** The header-level pieces of the allocator toolkit: the width of `size_t`,
    the 8-byte rounding helper and `Allocator::Dup`. */
module Allocator {
  import opened Wrappers

  /** Largest value of a 64-bit `size_t`. */
  const SIZE_MAX: nat := 0xFFFF_FFFF_FFFF_FFFF

  /** A `size_t` value. */
  type SizeT = n: nat | n <= SIZE_MAX

  type Byte = bv8

  /** Why a fatal assertion fired, or which undefined operation the code performs. */
  datatype Fault =
    | ReallocUnsupported      // PoolAllocator::Realloc: CrashAlwaysIf(true)
    | MinBlockSizeAfterAlloc  // PoolAllocator::SetMinBlockSize: CrashIf(currBlock)
    | NullDereference         // writing through a NULL pointer
    | DivisionByZero          // integer division by zero

  /** Rounds `n` up to the next multiple of 8, computed as ((n+8-1)/8)*8.
      The caller must keep `n + 7` within `size_t`; beyond that the
      addition wraps and the result would be 0. */
  function RoundUpTo8(n: SizeT): (r: SizeT)
    requires n <= SIZE_MAX - 7
    ensures r % 8 == 0
    ensures n <= r < n + 8
    ensures r <= SIZE_MAX - 7
  {
    ((n + 8 - 1) / 8) * 8
  }

  /** No smaller multiple of 8 covers `n`: the rounding is the least one. */
  lemma RoundUpTo8IsLeast(n: SizeT, m: nat)
    requires n <= SIZE_MAX - 7
    requires m % 8 == 0 && n <= m
    ensures RoundUpTo8(n) <= m
  {
  }

  /** Rounding an already rounded size changes nothing. */
  lemma RoundUpTo8Idempotent(n: SizeT)
    requires n <= SIZE_MAX - 7
    ensures RoundUpTo8(RoundUpTo8(n)) == RoundUpTo8(n)
  {
  }

  /** `Allocator::Dup(a, mem, size, padding)`: asks the allocator (or malloc
      when `a` is NULL) for `size + padding` bytes and, when it gets them,
      copies the first `size` bytes of `mem` into the start. `newMem` is what
      that allocation handed back: `None` for a NULL result, otherwise its
      uninitialised contents, which the padding keeps. */
  function Dup(mem: seq<Byte>, size: SizeT, padding: SizeT, newMem: Option<seq<Byte>>): (r: Option<seq<Byte>>)
    requires size <= |mem|
    requires size + padding <= SIZE_MAX
    requires newMem.Some? ==> |newMem.value| == size + padding
    ensures r.Some? <==> newMem.Some?
    ensures r.Some? ==> |r.value| == size + padding
    ensures r.Some? ==> r.value[..size] == mem[..size]
    ensures r.Some? ==> r.value[size..] == newMem.value[size..]
  {
    match newMem
    case None => None
    case Some(block) => Some(mem[..size] + block[size..])
  }
}
