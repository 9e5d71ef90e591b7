/**
 * Size and offset arithmetic of frame and row downloads, in C# `int`
 * arithmetic (unchecked, so it wraps), and the cached row width.
 */
module Transfer {
  import opened Native

  /** The element type of the caller's buffer: byte (8-bit mode) or ushort (16-bit mode). */
  datatype PixelDepth = Bits8 | Bits16

  /** sizeof(byte) or sizeof(ushort). */
  function BytesPerPixel(depth: PixelDepth): nat
  {
    match depth
    case Bits8 => 1
    case Bits16 => 2
  }

  /**
   * The buffer size GrabFrame passes to the native call: the element count
   * of the 2-D buffer times the element size, as a C# int.
   */
  function FrameBufferSize(depth: PixelDepth, elements: nat): (size: int32)
    ensures elements * BytesPerPixel(depth) <= INT32_MAX ==> size == elements * BytesPerPixel(depth)
    ensures (size - elements * BytesPerPixel(depth)) % TWO32 == 0
  {
    Wrap32(elements * BytesPerPixel(depth))
  }

  /** A 3072 x 3072 16-bit frame is requested as 18874368 bytes. */
  lemma FullFrameSize()
    ensures FrameBufferSize(Bits16, 3072 * 3072) == 18874368
  {
  }

  /**
   * A ushort buffer of 2^30 elements (possible only with very large objects
   * enabled) wraps the requested size to int.MinValue, a negative size.
   */
  lemma FrameBufferSizeWraps()
    ensures FrameBufferSize(Bits16, 0x4000_0000) == INT32_MIN
  {
  }

  /**
   * The byte width of one row of a 2-D buffer with `cols` columns:
   * `GetLength(1) * sizeof(T)`, the same product as the frame size taken
   * over one row.
   */
  function RowBytes(depth: PixelDepth, cols: nat): (width: int32)
    ensures cols * BytesPerPixel(depth) <= INT32_MAX ==> width == cols * BytesPerPixel(depth)
    ensures (width - cols * BytesPerPixel(depth)) % TWO32 == 0
  {
    FrameBufferSize(depth, cols)
  }

  /**
   * The byte offset of row `row` in a 2-D buffer with `cols` columns, as
   * GrabRow(buff, row) adds it to the buffer's address: `row * rowwidth`
   * in C# int arithmetic. `row` is not range-checked.
   */
  function RowOffset(depth: PixelDepth, cols: nat, row: int32): (offset: int32)
    ensures cols * BytesPerPixel(depth) <= INT32_MAX && INT32_MIN <= row * cols * BytesPerPixel(depth) <= INT32_MAX ==>
              offset == row * cols * BytesPerPixel(depth)
    ensures (offset - row * cols * BytesPerPixel(depth)) % TWO32 == 0
  {
    var o := Wrap32(row * RowBytes(depth, cols));
    FrameBytesByRow(depth, 0, cols, row);
    ScaledCongruence(row, cols * BytesPerPixel(depth), RowBytes(depth, cols), o);
    CongruentInRange(o, row * cols * BytesPerPixel(depth));
    o
  }

  /** Scaling a value congruent to `b` modulo 2^32 keeps the congruence. */
  lemma ScaledCongruence(row: int, b: int, w: int, o: int)
    requires (w - b) % TWO32 == 0
    requires (o - row * w) % TWO32 == 0
    ensures (o - row * b) % TWO32 == 0
  {
    var k := (w - b) / TWO32;
    var j := (o - row * w) / TWO32;
    assert w == b + TWO32 * k;
    assert o == row * w + TWO32 * j;
    assert row * w == row * b + TWO32 * (row * k);
    assert o - row * b == TWO32 * (row * k + j);
  }

  /** An int32 congruent modulo 2^32 to a value in the int32 range is that value. */
  lemma CongruentInRange(a: int32, x: int)
    requires (a - x) % TWO32 == 0
    ensures INT32_MIN <= x <= INT32_MAX ==> a == x
  {
    var q := (a - x) / TWO32;
    assert a - x == TWO32 * q;
  }

  /** Row `row` of `rows` rows of `b` bytes each starts at `row * b` and ends inside the buffer. */
  lemma RowSpanInside(rows: nat, b: nat, row: int)
    requires 0 <= row < rows
    ensures 0 <= row * b
    ensures row * b + b <= rows * b
  {
    assert (row + 1) * b == row * b + b;
    assert rows * b - (row + 1) * b == (rows - row - 1) * b;
  }

  /** The byte count of `rows` rows of `cols` pixels, grouped as rows of bytes. */
  lemma FrameBytesByRow(depth: PixelDepth, rows: nat, cols: nat, row: int)
    ensures rows * cols * BytesPerPixel(depth) == rows * (cols * BytesPerPixel(depth))
    ensures row * cols * BytesPerPixel(depth) == row * (cols * BytesPerPixel(depth))
  {
  }

  /**
   * While the whole buffer fits in an int, the offset of a row inside the
   * buffer is that of its first element in row-major order, and the row's
   * bytes lie inside the buffer.
   */
  lemma RowInsideFrame(depth: PixelDepth, rows: nat, cols: nat, row: int32)
    requires rows * cols * BytesPerPixel(depth) <= INT32_MAX
    requires 0 <= row < rows
    ensures RowOffset(depth, cols, row) == row * cols * BytesPerPixel(depth)
    ensures 0 <= RowOffset(depth, cols, row)
    ensures RowOffset(depth, cols, row) + cols * BytesPerPixel(depth) <= rows * cols * BytesPerPixel(depth)
  {
    var b := cols * BytesPerPixel(depth);
    FrameBytesByRow(depth, rows, cols, row);
    RowSpanInside(rows, b, row);
    assert RowBytes(depth, cols) == b;
  }

  /** Consecutive rows are adjacent: row r + 1 starts where row r ends. */
  lemma RowsAreAdjacent(depth: PixelDepth, rows: nat, cols: nat, row: int32)
    requires rows <= INT32_MAX
    requires rows * cols * BytesPerPixel(depth) <= INT32_MAX
    requires 0 <= row && row + 1 < rows
    ensures RowOffset(depth, cols, row + 1) == RowOffset(depth, cols, row) + cols * BytesPerPixel(depth)
  {
    RowInsideFrame(depth, rows, cols, row);
    RowInsideFrame(depth, rows, cols, row + 1);
    FrameBytesByRow(depth, rows, cols, row);
    FrameBytesByRow(depth, rows, cols, row + 1);
    assert (row + 1) * (cols * BytesPerPixel(depth)) == row * (cols * BytesPerPixel(depth)) + cols * BytesPerPixel(depth);
  }

  /**
   * A row index past the last row addresses bytes at or beyond the end of
   * the buffer (the index is not checked), so long as no wrap occurs.
   */
  lemma RowPastEndOutsideFrame(depth: PixelDepth, rows: nat, cols: nat, row: int32)
    requires cols * BytesPerPixel(depth) <= INT32_MAX
    requires rows <= row && row * cols * BytesPerPixel(depth) <= INT32_MAX
    ensures RowOffset(depth, cols, row) >= rows * cols * BytesPerPixel(depth)
  {
    var b := cols * BytesPerPixel(depth);
    FrameBytesByRow(depth, rows, cols, row);
    assert RowBytes(depth, cols) == b;
    assert row * b - rows * b == (row - rows) * b;
  }

  /** The array area as reported by GetArrayArea: upper-left and lower-right corners. */
  datatype Area = Area(ulX: int32, ulY: int32, lrX: int32, lrY: int32)

  /** The VisibleWidth field's "not yet filled" value, int.MinValue. */
  const WIDTH_UNSET: int32 := INT32_MIN

  /**
   * The cached width after the one-dimensional GrabRow has checked its
   * cache: an already filled cache is kept as it is, without a query; an
   * unfilled one is filled from the array area (`lr_x - ul_x`, as a C#
   * int), and a failing area query raises and leaves it unfilled.
   */
  function FillWidthCache(cache: int32, area: Reply<Area>): (r: Result<int32>)
    ensures cache != WIDTH_UNSET ==> r == Ok(cache)
    ensures cache == WIDTH_UNSET ==> (r.Ok? <==> area.status == 0)
    ensures cache == WIDTH_UNSET && r.Err? ==> Fail(r.error) == Check(area.status)
    ensures cache == WIDTH_UNSET && r.Ok? ==> (r.value - (area.value.lrX - area.value.ulX)) % TWO32 == 0
  {
    if cache != WIDTH_UNSET then Ok(cache)
    else
      match Unwrap(area)
      case Err(e) => Err(e)
      case Ok(a) => Ok(Wrap32(a.lrX - a.ulX))
  }

  /**
   * The cache is never invalidated: once filled, later calls keep it
   * whatever area they would read (for example after the image area or
   * the binning changed).
   */
  lemma {:induction false} FilledCacheIsNeverRefreshed(width: int32, later: seq<Reply<Area>>)
    requires width != WIDTH_UNSET
    ensures CacheAfter(width, later) == width
  {
    if |later| > 0 {
      FilledCacheIsNeverRefreshed(width, later[1..]);
    }
  }

  /** The cache after a series of one-dimensional GrabRow calls, each with the area reply it would get. */
  function CacheAfter(cache: int32, areas: seq<Reply<Area>>): int32
    decreases |areas|
  {
    if |areas| == 0 then cache
    else
      match FillWidthCache(cache, areas[0])
      case Ok(w) => CacheAfter(w, areas[1..])
      case Err(_) => CacheAfter(cache, areas[1..])
  }

  /**
   * An area whose width is exactly int.MinValue (after wrap) fills the
   * cache with the "unfilled" value itself, so the next call queries again.
   */
  lemma WidthOfMinValueLeavesCacheUnset()
    ensures FillWidthCache(WIDTH_UNSET, Reply(0, Area(0, 0, INT32_MIN, 0))) == Ok(WIDTH_UNSET)
  {
  }
}
