/** `FixedArray<T, StackBufInBytes>`: a buffer of `elCount` elements that
    lives in an inline array of `StackBufInBytes / sizeof(T)` elements when
    the count fits there, and in a heap array of `elCount` elements otherwise. */
module FixedArrays {

  /** The source's test `elCount > StackBufInBytes / sizeof(T)` says the
      same as "the elements need more bytes than the inline budget". */
  lemma {:induction false} HeapExactlyWhenOverBudget(elCount: nat, elSize: nat, stackBufInBytes: nat)
    requires elSize > 0
    ensures elCount > stackBufInBytes / elSize <==> elCount * elSize > stackBufInBytes
  {
    var q := stackBufInBytes / elSize;
    assert q * elSize <= stackBufInBytes < q * elSize + elSize;
    if elCount > q {
      assert elCount * elSize >= (q + 1) * elSize;
    } else {
      assert elCount * elSize <= q * elSize;
    }
  }

  class FixedArray<T(0)> {
    // sizeof(T) and the template's byte budget
    const elSize: nat
    const stackBufInBytes: nat
    // the number of elements asked for
    ghost const elCount: nat
    // `stackBuf`, embedded in the object
    const stackBuf: array<T>
    // `memBuf`: NULL unless the elements do not fit in `stackBuf`
    const memBuf: array?<T>

    /** The buffers as the constructor leaves them. */
    ghost predicate Valid() {
      elSize > 0 &&
      stackBuf.Length == stackBufInBytes / elSize &&
      (memBuf == null <==> elCount <= stackBuf.Length) &&
      (memBuf != null ==> memBuf.Length == elCount && memBuf != stackBuf)
    }

    /** `FixedArray(elCount)`: takes the heap path exactly when `elCount`
        exceeds the inline capacity. */
    constructor (elCount: nat, elSize: nat, stackBufInBytes: nat)
      requires elSize > 0
      ensures Valid()
      ensures this.elCount == elCount && this.elSize == elSize && this.stackBufInBytes == stackBufInBytes
      ensures fresh(stackBuf)
      ensures memBuf != null <==> elCount > stackBufInBytes / elSize
      ensures memBuf != null ==> fresh(memBuf)
    {
      this.elSize := elSize;
      this.stackBufInBytes := stackBufInBytes;
      this.elCount := elCount;
      var stackEls := stackBufInBytes / elSize;
      stackBuf := new T[stackEls];
      if elCount > stackEls {
        memBuf := new T[elCount];
      } else {
        memBuf := null;
      }
    }

    /** `Get()`: the active buffer. It has room for all `elCount` elements,
        and it is the inline one exactly when they fit in the byte budget. */
    function Get(): (r: array<T>)
      requires Valid()
      ensures r.Length >= elCount
      ensures r == stackBuf <==> elCount * elSize <= stackBufInBytes
      ensures r != stackBuf ==> r == memBuf && r.Length == elCount
    {
      HeapExactlyWhenOverBudget(elCount, elSize, stackBufInBytes);
      if memBuf != null then memBuf else stackBuf
    }
  }
}
