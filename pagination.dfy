/**
 * `PaginationParam`: the page number and size of a list request (both at least 1 after
 * validation) and the SQL `OFFSET` derived from them.
 */
module Pagination {
  import opened Decimal

  /** Java `int` arithmetic: the exact value brought into the 32-bit two's-complement range. */
  function Wrap32(x: int): (r: int32)
    ensures (r as int - x) % 0x1_0000_0000 == 0
    ensures MinInt32 <= x <= MaxInt32 ==> r as int == x
  {
    ((x - MinInt32) % 0x1_0000_0000 + MinInt32) as int32
  }

  /** The number of rows before page `pageNum` when each page holds `pageSize` rows. */
  function Offset(pageNum: int, pageSize: int): (r: int)
    ensures pageNum >= 1 && pageSize >= 0 ==> r >= 0
    ensures pageNum == 1 ==> r == 0
  {
    (pageNum - 1) * pageSize
  }

  /** Consecutive pages start exactly one page apart. */
  lemma NextPageOffset(pageNum: int, pageSize: int)
    ensures Offset(pageNum + 1, pageSize) == Offset(pageNum, pageSize) + pageSize
  {
  }

  /** With `int` page numbers and sizes the exact offset always fits a `long`. */
  lemma OffsetFitsLong(pageNum: int32, pageSize: int32)
    requires pageNum >= 1 && pageSize >= 1
    ensures 0 <= Offset(pageNum as int, pageSize as int) <= MaxInt64
  {
    var a, b := pageNum as int - 1, pageSize as int;
    MulMonotone(a, MaxInt32, b);
    MulMonotone(b, MaxInt32, MaxInt32);
    assert MaxInt32 * MaxInt32 <= MaxInt64;
  }

  lemma MulMonotone(a: int, c: int, b: int)
    requires 0 <= a <= c && 0 <= b
    ensures 0 <= a * b <= c * b
  {
  }

  /** The multiplication `setOffset` performs: 32-bit, wrapping on overflow. */
  function OffsetAsWritten(pageNum: int32, pageSize: int32): (r: int32)
    ensures MinInt32 <= Offset(pageNum as int, pageSize as int) <= MaxInt32 ==> r as int == Offset(pageNum as int, pageSize as int)
  {
    Wrap32(Wrap32(pageNum as int - 1) as int * pageSize as int)
  }

  /**
   * Pages both sizes pass validation for can still give a negative offset: page 3 of
   * pages of 2^30 rows wraps to -2^31.
   */
  lemma OffsetAsWrittenOverflows(pageNum: int32, pageSize: int32)
    requires pageNum == 3 && pageSize == 0x4000_0000
    ensures OffsetAsWritten(pageNum, pageSize) as int == MinInt32
    ensures Offset(pageNum as int, pageSize as int) == MaxInt32 + 1
  {
  }

  class PaginationParam {
    var pageNum: int32
    var pageSize: int32
    /** The offset passed to the query, widened from the source's `int` to a `long` so that the exact offset fits. */
    var offset: int64

    /** The `@Min(1)` constraints on both request fields. */
    ghost predicate Valid()
      reads this
    {
      pageNum >= 1 && pageSize >= 1
    }

    constructor (pageNum: int32, pageSize: int32)
      ensures this.pageNum == pageNum && this.pageSize == pageSize && offset == 0
    {
      this.pageNum := pageNum;
      this.pageSize := pageSize;
      offset := 0;
    }

    /** `setOffset`, computed without overflow: the offset field only, from the other two. */
    method SetOffset()
      requires Valid()
      modifies this
      ensures offset as int == Offset(pageNum as int, pageSize as int)
      ensures pageNum == old(pageNum) && pageSize == old(pageSize)
      ensures offset >= 0
    {
      OffsetFitsLong(pageNum, pageSize);
      offset := ((pageNum as int - 1) * pageSize as int) as int64;
    }
  }
}
