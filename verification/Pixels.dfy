/**
 Byte-wise drawing in the linear frame buffer of FrameBufferSerialPortLib.c: what
 a pixel pointer that only moves forward leaves behind.
 */
module Pixels {
  import opened MachineWord
  import opened Arith

  /** `color >>= 8`, `k` times. */
  function Shifted(color: uintn, k: nat): uintn
  {
    if k == 0 then color else Shifted(color, k - 1) / 0x100
  }

  /** The byte stored for byte `k` of a pixel. */
  function ColorByte(color: uintn, k: nat): byte
  {
    Shifted(color, k) % 0x100
  }

  /** The shifts divide by powers of two. */
  lemma {:induction false} ShiftedIsQuotient(color: uintn, k: nat)
    ensures Shifted(color, k) == color / Pow2(8 * k)
  {
    if k == 0 {
    } else {
      ShiftedIsQuotient(color, k - 1);
      assert Pow2(8) == 0x100;
      Pow2Add(8 * (k - 1), 8);
      DivDiv(color, Pow2(8 * (k - 1)), 0x100);
    }
  }

  /** The digits of a number to the base 256, the lowest one first. */
  function Digit(n: nat, k: nat): nat
  {
    n / Pow2(8 * k) % 0x100
  }

  /** The bytes of a pixel are the digits of its color. */
  lemma ColorByteIsDigit(color: uintn, k: nat)
    ensures ColorByte(color, k) == Digit(color, k)
  {
    ShiftedIsQuotient(color, k);
  }

  /** Four of them make up the color again. */
  lemma ColorOfBytes(color: uintn)
    ensures color == ColorByte(color, 0) + 0x100 * ColorByte(color, 1) + 0x1_0000 * ColorByte(color, 2)
                     + 0x100_0000 * ColorByte(color, 3)
  {
    var c1, c2, c3 := Shifted(color, 1), Shifted(color, 2), Shifted(color, 3);
    assert color == 0x100 * c1 + ColorByte(color, 0);
    assert c1 == 0x100 * c2 + ColorByte(color, 1);
    assert c2 == 0x100 * c3 + ColorByte(color, 2);
    assert c3 == ColorByte(color, 3);
  }

  /**
   A character cell: scale `s`, upper left pixel at column `x0` of line `y0`, in a
   frame buffer of `width` pixels a line and `bpp` bytes a pixel.
   */
  datatype Area = Area(width: nat, bpp: nat, s: nat, x0: nat, y0: nat)
  {
    /** The offset of the first pixel in row `row` of the cell. */
    function LineStart(row: nat): nat
    {
      if row == 0 then (y0 * width + x0) * bpp else LineStart(row - 1) + width * bpp
    }

    /** The offset of the pixel in row `row` and column `col` of the cell. */
    function Index(row: nat, col: nat): nat
    {
      if col == 0 then LineStart(row) else Index(row, col - 1) + bpp
    }

    /** The cell lies within the lines of the screen and ends within the buffer. */
    ghost predicate Fits(size: int)
    {
      0 < bpp && 0 < s && x0 + 5 * s <= width && Index(12 * s - 1, 5 * s) <= size
    }

    function RowOf(i: int): int
      requires 0 < bpp && 0 < width
    {
      i / bpp / width - y0
    }

    function ColOf(i: int): int
      requires 0 < bpp && 0 < width
    {
      i / bpp % width - x0
    }

    predicate Contains(i: int)
      requires 0 < bpp && 0 < width
    {
      0 <= RowOf(i) < 12 * s && 0 <= ColOf(i) < 5 * s
    }
  }

  /** Byte `i` after the cell's pixels selected by `mask` have been set to `color`. */
  ghost function PaintedByte(a: Area, before: seq<byte>, mask: (int, int) -> bool, color: uintn, i: int): byte
    requires 0 < a.bpp && 0 < a.width && 0 <= i < |before|
  {
    if a.Contains(i) && mask(a.RowOf(i), a.ColOf(i)) then ColorByte(color, i % a.bpp) else before[i]
  }

  ghost predicate IsPainted(a: Area, before: seq<byte>, mask: (int, int) -> bool, color: uintn, target: seq<byte>)
    requires 0 < a.bpp && 0 < a.width
  {
    |target| == |before| &&
    forall i {:trigger PaintedByte(a, before, mask, color, i)} ::
      0 <= i < |before| ==> target[i] == PaintedByte(a, before, mask, color, i)
  }

  ghost function Painted(a: Area, before: seq<byte>, mask: (int, int) -> bool, color: uintn): (target: seq<byte>)
    requires 0 < a.bpp && 0 < a.width
    ensures IsPainted(a, before, mask, color, target)
  {
    seq(|before|, i requires 0 <= i < |before| => PaintedByte(a, before, mask, color, i))
  }

  // ---------- Where the pointer is ----------

  lemma {:induction false} LineStartValue(a: Area, row: nat)
    ensures a.LineStart(row) == ((a.y0 + row) * a.width + a.x0) * a.bpp
  {
    if row == 0 {
    } else {
      LineStartValue(a, row - 1);
      Distributes(a.y0 + row - 1, 1, a.width);
      Distributes((a.y0 + row - 1) * a.width + a.x0, a.width, a.bpp);
    }
  }

  lemma {:induction false} IndexValue(a: Area, row: nat, col: nat)
    ensures a.Index(row, col) == ((a.y0 + row) * a.width + a.x0 + col) * a.bpp
  {
    if col == 0 {
      LineStartValue(a, row);
    } else {
      IndexValue(a, row, col - 1);
      Distributes((a.y0 + row) * a.width + a.x0 + col - 1, 1, a.bpp);
    }
  }

  lemma LocateFlat(width: nat, bpp: nat, y: nat, x: nat, k: nat)
    requires x < width && k < bpp
    ensures var i := (y * width + x) * bpp + k; i / bpp / width == y && i / bpp % width == x && i % bpp == k
  {
    DivUnique((y * width + x) * bpp + k, bpp, y * width + x, k);
    DivUnique(y * width + x, width, y, x);
  }

  lemma LocateByte(a: Area, row: nat, col: nat, k: nat)
    requires a.x0 + col < a.width && k < a.bpp
    ensures var i := a.Index(row, col) + k; a.RowOf(i) == row && a.ColOf(i) == col && i % a.bpp == k
  {
    IndexValue(a, row, col);
    LocateFlat(a.width, a.bpp, a.y0 + row, a.x0 + col, k);
  }

  /** Skipping what is left of a line after the cell leads to the cell's next row. */
  lemma NextRow(a: Area, row: nat)
    requires 5 * a.s <= a.width
    ensures a.Index(row + 1, 0) == a.Index(row, 5 * a.s) + (a.width - 5 * a.s) * a.bpp
    ensures a.Index(row, 5 * a.s) <= a.Index(row + 1, 0)
  {
    IndexValue(a, row, 5 * a.s);
    IndexValue(a, row + 1, 0);
    Distributes(a.y0 + row, 1, a.width);
    Distributes((a.y0 + row) * a.width + a.x0 + 5 * a.s, a.width - 5 * a.s, a.bpp);
  }

  lemma OrderedIndex(a: Area, row: nat, col: nat, row': nat, col': nat)
    requires col <= 5 * a.s <= a.width
    requires row < row' || (row == row' && col <= col')
    ensures a.Index(row, col) <= a.Index(row', col')
  {
    IndexValue(a, row, col);
    IndexValue(a, row', col');
    if row < row' {
      MulMonotone(a.y0 + row + 1, a.y0 + row', a.width);
      Distributes(a.y0 + row, 1, a.width);
    }
    MulMonotone((a.y0 + row) * a.width + a.x0 + col, (a.y0 + row') * a.width + a.x0 + col', a.bpp);
  }

  lemma PixelInside(a: Area, size: int, row: nat, col: nat)
    requires a.Fits(size) && row < 12 * a.s && col < 5 * a.s
    ensures a.Index(row, col) + a.bpp <= size
  {
    OrderedIndex(a, row, col + 1, 12 * a.s - 1, 5 * a.s);
  }

  // ---------- Which bytes are not in the cell ----------

  lemma RowInFlat(width: nat, y: nat, x0: nat, x1: nat, q: nat)
    requires x0 < x1 <= width && y * width + x1 <= q < (y + 1) * width + x0
    ensures (q / width == y && x1 <= q % width) || (q / width == y + 1 && q % width < x0)
  {
    Distributes(y, 1, width);
    if q < y * width + width {
      DivUnique(q, width, y, q - y * width);
    } else {
      DivUnique(q, width, y + 1, q - y * width - width);
    }
  }

  lemma GapInFlat(width: nat, bpp: nat, y: nat, x0: nat, x1: nat, i: nat)
    requires 0 < bpp && x0 < x1 <= width
    requires (y * width + x1) * bpp <= i < ((y + 1) * width + x0) * bpp
    ensures var q := i / bpp; (q / width == y && x1 <= q % width) || (q / width == y + 1 && q % width < x0)
  {
    QuotientBetween(i, bpp, y * width + x1, (y + 1) * width + x0);
    RowInFlat(width, y, x0, x1, i / bpp);
  }

  /** Bytes between the end of one row of the cell and the start of the next are not in the cell. */
  lemma GapIsOutside(a: Area, row: nat, i: nat)
    requires 0 < a.bpp && 0 < a.s && a.x0 + 5 * a.s <= a.width
    requires a.Index(row, 5 * a.s) <= i < a.Index(row + 1, 0)
    ensures !a.Contains(i)
  {
    IndexValue(a, row, 5 * a.s);
    IndexValue(a, row + 1, 0);
    GapInFlat(a.width, a.bpp, a.y0 + row, a.x0, a.x0 + 5 * a.s, i);
  }

  lemma DivisionOf(v: int, d: int)
    requires 0 < d
    ensures v == v / d * d + v % d
  {
  }

  lemma ContainedIndex(a: Area, i: nat)
    requires 0 < a.bpp && 0 < a.width && a.Contains(i)
    ensures i == a.Index(a.RowOf(i), a.ColOf(i)) + i % a.bpp
  {
    IndexValue(a, a.RowOf(i), a.ColOf(i));
    DivisionOf(i, a.bpp);
    DivisionOf(i / a.bpp, a.width);
  }

  lemma BeforeIsOutside(a: Area, i: nat)
    requires 0 < a.bpp && 0 < a.s && a.x0 + 5 * a.s <= a.width
    requires i < a.Index(0, 0)
    ensures !a.Contains(i)
  {
    if a.Contains(i) {
      ContainedIndex(a, i);
      OrderedIndex(a, 0, 0, a.RowOf(i), a.ColOf(i));
    }
  }

  lemma AfterIsOutside(a: Area, i: nat)
    requires 0 < a.bpp && 0 < a.s && a.x0 + 5 * a.s <= a.width
    requires a.Index(12 * a.s, 0) <= i
    ensures !a.Contains(i)
  {
    if a.Contains(i) {
      ContainedIndex(a, i);
      OrderedIndex(a, a.RowOf(i), a.ColOf(i) + 1, 12 * a.s, 0);
    }
  }

  /** Nothing behind the end of a fitting cell belongs to it. */
  lemma BehindIsOutside(a: Area, size: nat, i: nat)
    requires a.Fits(size) && size <= i
    ensures !a.Contains(i)
  {
    if a.Contains(i) {
      ContainedIndex(a, i);
      OrderedIndex(a, a.RowOf(i), a.ColOf(i) + 1, 12 * a.s - 1, 5 * a.s);
    }
  }
}
