/** Sizes and offsets of a shared segment: the 2 MiB rounding of the file size,
    the size of one padded cell, and where cell i sits behind the header.
    All quantities are the source's 64-bit unsigned integers; wrap-around is
    written out where the source's arithmetic can wrap. */
module Layout {

  import opened Wrappers

  const U64Limit: int := 0x1_0000_0000_0000_0000

  /** A `uint64_t` / `size_t` value. */
  type u64 = x: int | 0 <= x < U64Limit

  /** `CACHE_LINE_SIZE`: the alignment of every cell and of the header. */
  const CacheLineSize: int := 64

  /** `HUGE_PAGE_SIZE`: 2 MiB. */
  const HugePageSize: int := 2097152

  /** `MIN_MAP_SIZE`: how much a joiner maps to read the header. */
  const MinMapSize: int := 4096

  /** `SHM_READY_MAGIC`: the value the creator publishes once the header is written. */
  const ReadyMagic: u64 := 0xDEAD_BEEF_CAFE_BABE

  /** `sizeof(ShmHeader)`: four `uint64_t` fields (32 bytes) padded to the
      64-byte alignment the class declares. */
  const HeaderSize: int := 64

  /** `align_to_huge_page`: `(size + HUGE_PAGE_SIZE - 1) & ~(HUGE_PAGE_SIZE - 1)`.
      Clearing the low 21 bits of a 64-bit value is rounding it down to a
      multiple of 2 MiB; the addition wraps modulo 2^64 as in the source. */
  function AlignToHugePage(size: u64): (r: u64)
    ensures r % HugePageSize == 0
    ensures size + HugePageSize - 1 < U64Limit ==> size <= r < size + HugePageSize
  {
    ((size + HugePageSize - 1) % U64Limit) / HugePageSize * HugePageSize
  }

  /** The result is the least multiple of 2 MiB that is at least `size`. */
  lemma AlignIsLeastMultiple(size: u64, m: int)
    requires size + HugePageSize - 1 < U64Limit
    requires m % HugePageSize == 0 && size <= m
    ensures AlignToHugePage(size) <= m
  {
  }

  /** Aligning twice is aligning once, even where the first addition wrapped. */
  lemma AlignIdempotent(size: u64)
    ensures AlignToHugePage(AlignToHugePage(size)) == AlignToHugePage(size)
  {
    var r := AlignToHugePage(size);
    assert r <= U64Limit - HugePageSize by {
      assert r / HugePageSize < U64Limit / HugePageSize;
    }
  }

  lemma AlignZero()
    ensures AlignToHugePage(0) == 0
  {
  }

  /** `sizeof(PaddedValue<T>)`: a one-byte `busy_flag`, then `T` at its own
      alignment, the whole rounded up to the 64-byte cache line.
      `elemAlign` is `alignof(T)`, a divisor of 64. */
  function CellSize(elemSize: u64, elemAlign: nat): (r: nat)
    requires 1 <= elemAlign <= CacheLineSize && CacheLineSize % elemAlign == 0
    ensures r % CacheLineSize == 0
    ensures elemAlign + elemSize <= r < elemAlign + elemSize + CacheLineSize
    ensures r > elemSize
  {
    (elemAlign + elemSize + CacheLineSize - 1) / CacheLineSize * CacheLineSize
  }

  /** Byte offset of cell `i` from the start of the segment: the view's
      `data_ptr` is `base + sizeof(ShmHeader)` and cell `i` is `data_ptr[i]`. */
  function CellOffset(i: nat, cellSize: nat): (r: nat)
    // cells never overlap the header, and padded cells start on a cache line
    ensures r >= HeaderSize
    ensures cellSize % CacheLineSize == 0 ==> r % CacheLineSize == 0
  {
    if cellSize % CacheLineSize == 0 then LineMultiple(i, cellSize); HeaderSize + i * cellSize
    else HeaderSize + i * cellSize
  }

  /** `i` cells of whole cache lines span whole cache lines. */
  lemma LineMultiple(i: nat, cellSize: nat)
    requires cellSize % CacheLineSize == 0
    ensures (i * cellSize) % CacheLineSize == 0
  {
    var q := cellSize / CacheLineSize;
    assert cellSize == CacheLineSize * q;
    assert i * cellSize == CacheLineSize * (i * q);
  }

  /** The creation size exactly as the source computes it:
      `sizeof(ShmHeader) + sizeof(PaddedValue<T>) * count` in 64-bit unsigned
      arithmetic, then rounded up to 2 MiB. Both steps can wrap. */
  function CreationSizeAsWritten(count: u64, cellSize: u64): (r: u64)
    ensures r % HugePageSize == 0
    // where nothing wraps it is large enough for the header and every cell
    ensures HeaderSize + cellSize * count + HugePageSize - 1 < U64Limit ==> HeaderSize + cellSize * count <= r
  {
    AlignToHugePage((HeaderSize + cellSize * count) % U64Limit)
  }

  /** The creation size with the overflow the source does not check made
      explicit: `None` when the padded size does not fit in 64 bits. Wherever
      it is defined it agrees with the source's value, and every cell below
      `count` lies inside it. */
  function CreationSize(count: u64, cellSize: u64): (r: Option<u64>)
    ensures r.Some? <==> HeaderSize + cellSize * count + HugePageSize - 1 < U64Limit
    ensures r.Some? ==> r.value == CreationSizeAsWritten(count, cellSize)
    ensures r.Some? ==> HeaderSize + cellSize * count <= r.value
    ensures r.Some? ==> forall i: nat :: i < count ==> CellOffset(i, cellSize) + cellSize <= r.value
  {
    var total := HeaderSize + cellSize * count;
    if total + HugePageSize - 1 < U64Limit then
      AllCellsBeforeArrayEnd(count, cellSize);
      NoWrap(total);
      Some(AlignToHugePage(total))
    else
      None
  }

  /** A value below 2^64 is its own 64-bit truncation. */
  lemma NoWrap(x: int)
    requires 0 <= x < U64Limit
    ensures x % U64Limit == x
  {
  }

  /** Cell `i` of an array of `count` cells ends no later than the array does. */
  lemma CellEndsBeforeArrayEnd(i: nat, count: nat, cellSize: nat)
    requires i < count
    ensures CellOffset(i, cellSize) + cellSize <= HeaderSize + cellSize * count
  {
    assert (i + 1) * cellSize <= count * cellSize by {
      MulMonotone(i + 1, count, cellSize);
    }
  }

  lemma AllCellsBeforeArrayEnd(count: nat, cellSize: nat)
    ensures forall i: nat :: i < count ==> CellOffset(i, cellSize) + cellSize <= HeaderSize + cellSize * count
  {
    forall i: nat | i < count
      ensures CellOffset(i, cellSize) + cellSize <= HeaderSize + cellSize * count
    {
      CellEndsBeforeArrayEnd(i, count, cellSize);
    }
  }

  lemma MulMonotone(a: nat, b: nat, c: nat)
    requires a <= b
    ensures a * c <= b * c
  {
  }

  /** As written, the source accepts a count for which the multiplication wraps:
      with 64-byte cells and 2^58 of them, the segment it sizes is 2 MiB while the
      last cell the header promises lies 2^64 bytes past the start. */
  lemma CreationSizeWrapCounterexample()
    ensures var count: u64 := 0x400_0000_0000_0000;
            CreationSizeAsWritten(count, 64) == HugePageSize
            && CellOffset(count - 1, 64) + 64 > CreationSizeAsWritten(count, 64)
  {
  }
}
