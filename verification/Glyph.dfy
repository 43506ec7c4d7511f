/** `FbConDrawglyph` and `ResetFb` of FrameBufferSerialPortLib.c. */
module Glyph {
  import opened MachineWord
  import opened Arith
  import opened Pixels

  const FONT_WIDTH := 5
  const FONT_HEIGHT := 12

  /** `word >>= 1`, `n` times. */
  function ShiftedRight(word: uintn, n: nat): uintn
  {
    if n == 0 then word else ShiftedRight(word, n - 1) / 2
  }

  predicate BitSet(word: uintn, n: nat)
  {
    ShiftedRight(word, n) % 2 == 1
  }

  lemma {:induction false} ShiftedRightIsQuotient(word: uintn, n: nat)
    ensures ShiftedRight(word, n) == word / Pow2(n)
  {
    if n == 0 {
    } else {
      ShiftedRightIsQuotient(word, n - 1);
      DivDiv(word, Pow2(n - 1), 2);
    }
  }

  /** Bit `n` is the binary digit of that weight. */
  lemma BitSetIsDigit(word: uintn, n: nat)
    ensures BitSet(word, n) <==> word / Pow2(n) % 2 == 1
  {
    ShiftedRightIsQuotient(word, n);
  }

  /** The binary digit of the glyph that stands in font row `row` and column `col`, top left the lowest one. */
  ghost predicate FontPixel(g0: uintn, g1: uintn, row: nat, col: nat)
  {
    if row < 6 then g0 / Pow2(5 * row + col) % 2 == 1 else g1 / Pow2(5 * (row - 6) + col) % 2 == 1
  }

  /**
   The glyph's picture at scale `s`: six rows of five bits in each of its two words,
   the lowest bit leftmost and topmost.
   */
  predicate GlyphBit(g0: uintn, g1: uintn, s: nat, row: int, col: int)
  {
    0 < s && 0 <= row && 0 <= col &&
    BitSet(if row / s < 6 then g0 else g1, 5 * (row / s % 6) + col / s)
  }

  lemma FontBit(g0: uintn, g1: uintn, y: nat, x: nat)
    requires y < 12
    ensures BitSet(if y < 6 then g0 else g1, 5 * (y % 6) + x) <==> FontPixel(g0, g1, y, x)
  {
    if y < 6 {
      assert y % 6 == y;
      BitSetIsDigit(g0, 5 * y + x);
    } else {
      assert y % 6 == y - 6;
      BitSetIsDigit(g1, 5 * (y - 6) + x);
    }
  }

  /** Scaling repeats each font pixel `s` times in each direction. */
  lemma GlyphBitIsFontPixel(g0: uintn, g1: uintn, s: nat, row: nat, col: nat)
    requires 0 < s && row < 12 * s
    ensures GlyphBit(g0, g1, s, row, col) <==> FontPixel(g0, g1, row / s, col / s)
  {
    QuotientBetween(row, s, 0, 12);
    FontBit(g0, g1, row / s, col / s);
  }

  ghost function WholeCell(): (int, int) -> bool
  {
    (row, col) => true
  }

  ghost function GlyphMask(g0: uintn, g1: uintn, s: nat): (int, int) -> bool
  {
    (row, col) => GlyphBit(g0, g1, s, row, col)
  }

  /** Everything before the pointer `p` is as in `target`, the rest still as in `before`. */
  ghost predicate Swept(mem: array<byte>, before: seq<byte>, target: seq<byte>, p: int)
    reads mem
  {
    |before| == |target| == mem.Length && 0 <= p &&
    forall i :: 0 <= i < mem.Length ==> mem[i] == if i < p then target[i] else before[i]
  }

  /** The pixel at offset `p` of `target` has the given color. */
  ghost predicate PixelIs(target: seq<byte>, p: int, bpp: nat, color: uintn)
  {
    0 <= p && p + bpp <= |target| &&
    forall k :: 0 <= k < bpp ==> target[p + k] == ColorByte(color, k)
  }

  /** The innermost loop: stores the low bytes of the color and returns the advanced pointer. */
  method PutPixel(mem: array<byte>, p0: nat, bpp: nat, color0: uintn, ghost before: seq<byte>, ghost target: seq<byte>)
    returns (p: nat)
    requires Swept(mem, before, target, p0) && PixelIs(target, p0, bpp, color0)
    modifies mem
    ensures Swept(mem, before, target, p) && p == p0 + bpp
  {
    p := p0;
    var color := color0;
    for k := 0 to bpp
      invariant p == p0 + k && color == Shifted(color0, k)
      invariant Swept(mem, before, target, p)
    {
      assert target[p0 + k] == ColorByte(color0, k);
      mem[p] := color % 0x100;
      color := color / 0x100;
      p := p + 1;
    }
  }

  ghost predicate UnchangedIn(before: seq<byte>, target: seq<byte>, lo: int, hi: int)
  {
    |before| == |target| && forall i :: 0 <= i < |before| && lo <= i < hi ==> target[i] == before[i]
  }

  /** Skipping bytes that the target leaves alone. */
  lemma SkipSwept(mem: array<byte>, before: seq<byte>, target: seq<byte>, p: int, p': int)
    requires Swept(mem, before, target, p) && p <= p'
    requires UnchangedIn(before, target, p, p')
    ensures Swept(mem, before, target, p')
  {
  }

  // ---------- What the target holds at the pointer ----------

  lemma TargetPixel(a: Area, before: seq<byte>, mask: (int, int) -> bool, color: uintn, target: seq<byte>,
                    row: nat, col: nat)
    requires a.Fits(|before|) && IsPainted(a, before, mask, color, target)
    requires row < 12 * a.s && col < 5 * a.s
    ensures if mask(row, col) then PixelIs(target, a.Index(row, col), a.bpp, color)
            else UnchangedIn(before, target, a.Index(row, col), a.Index(row, col + 1))
  {
    PixelInside(a, |before|, row, col);
    var p := a.Index(row, col);
    assert a.Index(row, col + 1) == p + a.bpp;
    forall i | p <= i < p + a.bpp
      ensures target[i] == if mask(row, col) then ColorByte(color, i - p) else before[i]
    {
      LocateByte(a, row, col, i - p);
      assert target[i] == PaintedByte(a, before, mask, color, i);
    }
  }

  lemma TargetGap(a: Area, before: seq<byte>, mask: (int, int) -> bool, color: uintn, target: seq<byte>, row: nat)
    requires a.Fits(|before|) && IsPainted(a, before, mask, color, target)
    ensures UnchangedIn(before, target, a.Index(row, 5 * a.s), a.Index(row + 1, 0))
  {
    forall i | 0 <= i < |before| && a.Index(row, 5 * a.s) <= i < a.Index(row + 1, 0)
      ensures target[i] == before[i]
    {
      GapIsOutside(a, row, i);
      assert target[i] == PaintedByte(a, before, mask, color, i);
    }
  }

  lemma TargetEnds(a: Area, before: seq<byte>, mask: (int, int) -> bool, color: uintn, target: seq<byte>)
    requires a.Fits(|before|) && IsPainted(a, before, mask, color, target)
    ensures UnchangedIn(before, target, 0, a.Index(0, 0))
    ensures UnchangedIn(before, target, a.Index(12 * a.s, 0), |before|)
  {
    forall i | 0 <= i < |before| && (i < a.Index(0, 0) || a.Index(12 * a.s, 0) <= i)
      ensures target[i] == before[i]
    {
      if i < a.Index(0, 0) {
        BeforeIsOutside(a, i);
      } else {
        AfterIsOutside(a, i);
      }
      assert target[i] == PaintedByte(a, before, mask, color, i);
    }
  }

  // ---------- Runs of pixels ----------

  /** The pixels of one font column in one row: `s` pixels of the same color. */
  method PutRun(mem: array<byte>, p0: nat, bpp: nat, s: nat, color: uintn,
                ghost a: Area, ghost row: nat, ghost col: nat, ghost before: seq<byte>, ghost target: seq<byte>)
    returns (p: nat)
    requires a.bpp == bpp && p0 == a.Index(row, col) && Swept(mem, before, target, p0)
    requires forall c: nat :: col <= c < col + s ==> PixelIs(target, a.Index(row, c), bpp, color)
    modifies mem
    ensures p == a.Index(row, col + s) && Swept(mem, before, target, p)
  {
    p := p0;
    for j := 0 to s
      invariant p == a.Index(row, col + j) && Swept(mem, before, target, p)
    {
      p := PutPixel(mem, p, bpp, color, before, target);
      assert p == a.Index(row, col + j + 1);
    }
  }

  /** The same move without storing anything. */
  method SkipRun(mem: array<byte>, p0: nat, bpp: nat, s: nat,
                 ghost a: Area, ghost row: nat, ghost col: nat, ghost before: seq<byte>, ghost target: seq<byte>)
    returns (p: nat)
    requires a.bpp == bpp && p0 == a.Index(row, col) && Swept(mem, before, target, p0)
    requires forall c: nat :: col <= c < col + s ==> UnchangedIn(before, target, a.Index(row, c), a.Index(row, c + 1))
    ensures p == a.Index(row, col + s) && Swept(mem, before, target, p)
  {
    p := p0;
    for j := 0 to s
      invariant p == a.Index(row, col + j) && Swept(mem, before, target, p)
    {
      ghost var c := col + j;
      assert a.Index(row, c + 1) == p + bpp;
      SkipSwept(mem, before, target, p, a.Index(row, c + 1));
      p := p + bpp;
    }
  }

  /** The move from the end of a row of the cell to the start of the next one. */
  lemma SkipGap(mem: array<byte>, a: Area, before: seq<byte>, mask: (int, int) -> bool, color: uintn,
                target: seq<byte>, row: nat)
    requires a.Fits(|before|) && IsPainted(a, before, mask, color, target)
    requires Swept(mem, before, target, a.Index(row, 5 * a.s))
    ensures a.Index(row + 1, 0) == a.Index(row, 5 * a.s) + (a.width - 5 * a.s) * a.bpp
    ensures Swept(mem, before, target, a.Index(row + 1, 0))
  {
    TargetGap(a, before, mask, color, target, row);
    NextRow(a, row);
    SkipSwept(mem, before, target, a.Index(row, 5 * a.s), a.Index(row + 1, 0));
  }

  // ---------- The background pass ----------

  /** One row of pixels of the cell, and the move to the next line of the screen. */
  method BackgroundRow(mem: array<byte>, p0: nat, stride: nat, bpp: nat, s: nat, background: uintn,
                       ghost a: Area, ghost row: nat, ghost before: seq<byte>, ghost target: seq<byte>)
    returns (p: nat)
    requires a.Fits(mem.Length) && a.s == s && a.bpp == bpp && stride == a.width - FONT_WIDTH * s
    requires row < 12 * s && p0 == a.Index(row, 0)
    requires Swept(mem, before, target, p0) && IsPainted(a, before, WholeCell(), background, target)
    modifies mem
    ensures p == a.Index(row + 1, 0) && Swept(mem, before, target, p)
  {
    p := p0;
    ghost var col := 0;
    for x := 0 to FONT_WIDTH
      invariant col == RunStart(s, x) && p == a.Index(row, col) && Swept(mem, before, target, p)
    {
      forall c: nat | col <= c < col + s
        ensures PixelIs(target, a.Index(row, c), bpp, background)
      {
        RunIndex(s, FONT_WIDTH, x, c);
        TargetPixel(a, before, WholeCell(), background, target, row, c);
      }
      p := PutRun(mem, p, bpp, s, background, a, row, col, before, target);
      col := col + s;
    }
    RunStartValue(s, FONT_WIDTH);
    SkipGap(mem, a, before, WholeCell(), background, target, row);
    p := p + stride * bpp;
  }

  /** Six glyph rows of background. */
  method BackgroundHalf(mem: array<byte>, p0: nat, stride: nat, bpp: nat, s: nat, background: uintn,
                        ghost a: Area, ghost top: nat, ghost before: seq<byte>, ghost target: seq<byte>)
    returns (p: nat)
    requires a.Fits(mem.Length) && a.s == s && a.bpp == bpp && stride == a.width - FONT_WIDTH * s
    requires top + 6 * s <= 12 * s && p0 == a.Index(top, 0)
    requires Swept(mem, before, target, p0) && IsPainted(a, before, WholeCell(), background, target)
    modifies mem
    ensures p == a.Index(top + 6 * s, 0) && Swept(mem, before, target, p)
  {
    p := p0;
    ghost var row := top;
    for y := 0 to FONT_HEIGHT / 2
      invariant row == top + RunStart(s, y) && p == a.Index(row, 0) && Swept(mem, before, target, p)
    {
      RunIndex(s, FONT_HEIGHT / 2, y, RunStart(s, y) + s - 1);
      ghost var start := row;
      for i := 0 to s
        invariant row == start + i && p == a.Index(row, 0) && Swept(mem, before, target, p)
      {
        p := BackgroundRow(mem, p, stride, bpp, s, background, a, row, before, target);
        row := row + 1;
      }
    }
    RunStartValue(s, FONT_HEIGHT / 2);
  }

  // ---------- The foreground pass ----------

  /** Row `row` of the mask repeats bits `5 * y` to `5 * y + 4` of `word`, each `s` times. */
  ghost predicate RowShows(mask: (int, int) -> bool, s: nat, row: nat, word: uintn, y: nat)
  {
    0 < s && forall c: nat :: c < 5 * s ==> (mask(row, c) <==> BitSet(word, 5 * y + c / s))
  }

  lemma GlyphRowShows(g0: uintn, g1: uintn, s: nat, row: nat, half: nat, y: nat, i: nat)
    requires half < 2 && y < 6 && i < s && row == RunStart(s, 6 * half + y) + i
    ensures RowShows(GlyphMask(g0, g1, s), s, row, if half == 0 then g0 else g1, y)
  {
    RunIndex(s, 12, 6 * half + y, row);
  }

  lemma RunShows(a: Area, before: seq<byte>, mask: (int, int) -> bool, color: uintn, target: seq<byte>,
                 row: nat, word: uintn, y: nat, x: nat, data: uintn)
    requires a.Fits(|before|) && IsPainted(a, before, mask, color, target)
    requires row < 12 * a.s && x < 5 && RowShows(mask, a.s, row, word, y) && data == ShiftedRight(word, 5 * y + x)
    ensures data % 2 == 1 ==>
              forall c: nat :: RunStart(a.s, x) <= c < RunStart(a.s, x) + a.s ==>
                                 PixelIs(target, a.Index(row, c), a.bpp, color)
    ensures data % 2 == 0 ==>
              forall c: nat :: RunStart(a.s, x) <= c < RunStart(a.s, x) + a.s ==>
                UnchangedIn(before, target, a.Index(row, c), a.Index(row, c + 1))
  {
    forall c: nat | RunStart(a.s, x) <= c < RunStart(a.s, x) + a.s
      ensures data % 2 == 1 ==> PixelIs(target, a.Index(row, c), a.bpp, color)
      ensures data % 2 == 0 ==> UnchangedIn(before, target, a.Index(row, c), a.Index(row, c + 1))
    {
      RunIndex(a.s, 5, x, c);
      assert mask(row, c) <==> BitSet(word, 5 * y + x);
      TargetPixel(a, before, mask, color, target, row, c);
    }
  }

  /** One row of pixels of the glyph: the low bit of `data` decides, then `data` is shifted. */
  method GlyphRow(mem: array<byte>, p0: nat, stride: nat, bpp: nat, s: nat, foreground: uintn, data0: uintn,
                  ghost a: Area, ghost mask: (int, int) -> bool, ghost word: uintn, ghost y: nat,
                  ghost row: nat, ghost before: seq<byte>, ghost target: seq<byte>)
    returns (p: nat, data: uintn)
    requires a.Fits(mem.Length) && a.s == s && a.bpp == bpp && stride == a.width - FONT_WIDTH * s
    requires row < 12 * s && p0 == a.Index(row, 0)
    requires data0 == ShiftedRight(word, 5 * y) && RowShows(mask, s, row, word, y)
    requires Swept(mem, before, target, p0) && IsPainted(a, before, mask, foreground, target)
    modifies mem
    ensures p == a.Index(row + 1, 0) && Swept(mem, before, target, p)
    ensures data == ShiftedRight(word, 5 * y + 5)
  {
    p, data := p0, data0;
    ghost var col := 0;
    for x := 0 to FONT_WIDTH
      invariant data == ShiftedRight(word, 5 * y + x)
      invariant col == RunStart(s, x) && p == a.Index(row, col) && Swept(mem, before, target, p)
    {
      RunShows(a, before, mask, foreground, target, row, word, y, x, data);
      if data % 2 == 1 {
        p := PutRun(mem, p, bpp, s, foreground, a, row, col, before, target);
      } else {
        p := SkipRun(mem, p, bpp, s, a, row, col, before, target);
      }
      col := col + s;
      data := data / 2;
    }
    RunStartValue(s, FONT_WIDTH);
    SkipGap(mem, a, before, mask, foreground, target, row);
    p := p + stride * bpp;
  }

  /** Half of the glyph from one of its words; the row's bits are read again for each repeated line. */
  method GlyphHalf(mem: array<byte>, p0: nat, stride: nat, bpp: nat, s: nat, foreground: uintn, word: uintn,
                   ghost a: Area, ghost g0: uintn, ghost g1: uintn, ghost half: nat,
                   ghost before: seq<byte>, ghost target: seq<byte>)
    returns (p: nat)
    requires a.Fits(mem.Length) && a.s == s && a.bpp == bpp && stride == a.width - FONT_WIDTH * s
    requires half < 2 && p0 == a.Index(RunStart(s, 6 * half), 0) && word == if half == 0 then g0 else g1
    requires Swept(mem, before, target, p0) && IsPainted(a, before, GlyphMask(g0, g1, s), foreground, target)
    modifies mem
    ensures p == a.Index(RunStart(s, 6 * half + 6), 0) && Swept(mem, before, target, p)
  {
    p := p0;
    var data := word;
    ghost var row := RunStart(s, 6 * half);
    for y := 0 to FONT_HEIGHT / 2
      invariant row == RunStart(s, 6 * half + y) && p == a.Index(row, 0) && Swept(mem, before, target, p)
      invariant data == ShiftedRight(word, 5 * y)
    {
      var temp := data;
      RunIndex(s, FONT_HEIGHT, 6 * half + y, row + s - 1);
      ghost var start := row;
      for i := 0 to s
        invariant row == start + i && p == a.Index(row, 0) && Swept(mem, before, target, p)
        invariant data == ShiftedRight(word, if i == 0 then 5 * y else 5 * y + 5)
      {
        data := temp;
        GlyphRowShows(g0, g1, s, row, half, y, i);
        p, data := GlyphRow(mem, p, stride, bpp, s, foreground, data, a, GlyphMask(g0, g1, s), word, y, row,
                            before, target);
        row := row + 1;
      }
    }
  }

  // ---------- The whole glyph ----------

  /** Byte `i` of the frame buffer after the glyph has been drawn in cell `a`. */
  ghost function DrawnByte(a: Area, g0: uintn, g1: uintn, foreground: uintn, background: uintn,
                           before: seq<byte>, i: int): byte
    requires 0 < a.bpp && 0 < a.width && 0 <= i < |before|
  {
    if !a.Contains(i) then before[i]
    else if GlyphBit(g0, g1, a.s, a.RowOf(i), a.ColOf(i)) then ColorByte(foreground, i % a.bpp)
    else ColorByte(background, i % a.bpp)
  }

  ghost predicate IsDrawn(a: Area, g0: uintn, g1: uintn, foreground: uintn, background: uintn,
                          before: seq<byte>, after: seq<byte>)
    requires 0 < a.bpp && 0 < a.width
  {
    |after| == |before| &&
    forall i {:trigger DrawnByte(a, g0, g1, foreground, background, before, i)} ::
      0 <= i < |before| ==> after[i] == DrawnByte(a, g0, g1, foreground, background, before, i)
  }

  lemma DrawnAt(a: Area, g0: uintn, g1: uintn, foreground: uintn, background: uintn,
                before: seq<byte>, after: seq<byte>, row: nat, col: nat, k: nat, i: nat)
    requires 0 < a.bpp && 0 < a.width && IsDrawn(a, g0, g1, foreground, background, before, after)
    requires i < |before| && a.RowOf(i) == row < 12 * a.s && a.ColOf(i) == col < 5 * a.s && i % a.bpp == k
    ensures after[i] == Digit(if FontPixel(g0, g1, row / a.s, col / a.s) then foreground else background, k)
  {
    assert after[i] == DrawnByte(a, g0, g1, foreground, background, before, i);
    GlyphBitIsFontPixel(g0, g1, a.s, row, col);
    ColorByteIsDigit(foreground, k);
    ColorByteIsDigit(background, k);
  }

  /** Each pixel of a drawn cell, byte by byte, and where it lies. */
  lemma DrawnPixel(a: Area, g0: uintn, g1: uintn, foreground: uintn, background: uintn,
                   before: seq<byte>, after: seq<byte>, row: nat, col: nat, k: nat, i: nat)
    requires a.Fits(|before|) && 0 < a.width && IsDrawn(a, g0, g1, foreground, background, before, after)
    requires row < 12 * a.s && col < 5 * a.s && k < a.bpp
    requires i == ((a.y0 + row) * a.width + a.x0 + col) * a.bpp + k
    ensures i < |after|
    ensures after[i] == Digit(if FontPixel(g0, g1, row / a.s, col / a.s) then foreground else background, k)
  {
    PixelInside(a, |before|, row, col);
    LocateByte(a, row, col, k);
    IndexValue(a, row, col);
    DrawnAt(a, g0, g1, foreground, background, before, after, row, col, k, i);
  }

  lemma BothPasses(a: Area, g0: uintn, g1: uintn, foreground: uintn, background: uintn,
                   before: seq<byte>, middle: seq<byte>, after: seq<byte>)
    requires a.Fits(|before|)
    requires IsPainted(a, before, WholeCell(), background, middle)
    requires IsPainted(a, middle, GlyphMask(g0, g1, a.s), foreground, after)
    ensures IsDrawn(a, g0, g1, foreground, background, before, after)
  {
    forall i | 0 <= i < |before|
      ensures after[i] == DrawnByte(a, g0, g1, foreground, background, before, i)
    {
      assert middle[i] == PaintedByte(a, before, WholeCell(), background, i);
      assert after[i] == PaintedByte(a, middle, GlyphMask(g0, g1, a.s), foreground, i);
    }
  }

  /**
   Draws the glyph at offset `pixels`: inside the cell every pixel becomes foreground
   or background as the glyph says, outside it no byte changes.
   */
  method DrawGlyph(mem: array<byte>, pixels: nat, width: nat, bpp: nat, g0: uintn, g1: uintn, s: nat,
                   foreground: uintn, background: uintn, ghost a: Area)
    requires a.Fits(mem.Length) && a.s == s && a.bpp == bpp && a.width == width
    requires pixels == a.Index(0, 0)
    modifies mem
    ensures IsDrawn(a, g0, g1, foreground, background, old(mem[..]), mem[..])
  {
    var stride := width - FONT_WIDTH * s;
    ghost var before := mem[..];
    ghost var middle := Painted(a, before, WholeCell(), background);
    ghost var after := Painted(a, middle, GlyphMask(g0, g1, s), foreground);

    TargetEnds(a, before, WholeCell(), background, middle);
    var p := BackgroundHalf(mem, pixels, stride, bpp, s, background, a, 0, before, middle);
    p := BackgroundHalf(mem, p, stride, bpp, s, background, a, 6 * s, before, middle);
    assert mem[..] == middle;

    TargetEnds(a, middle, GlyphMask(g0, g1, s), foreground, after);
    p := GlyphHalf(mem, pixels, stride, bpp, s, foreground, g0, a, g0, g1, 0, middle, after);
    p := GlyphHalf(mem, p, stride, bpp, s, foreground, g1, a, g0, g1, 1, middle, after);
    RunStartValue(s, 12);
    assert mem[..] == after;
    BothPasses(a, g0, g1, foreground, background, before, middle, after);
  }

  // ---------- Clearing ----------

  ghost function Filled(size: nat, bpp: nat, color: uintn, before: seq<byte>): (target: seq<byte>)
    requires 0 < bpp && size <= |before|
    ensures |target| == |before|
    ensures forall i {:trigger ColorByte(color, i % bpp)} :: 0 <= i < size ==> target[i] == ColorByte(color, i % bpp)
    ensures forall i :: size <= i < |before| ==> target[i] == before[i]
  {
    seq(|before|, i requires 0 <= i < |before| => if i < size then ColorByte(color, i % bpp) else before[i])
  }

  lemma FilledByte(size: nat, bpp: nat, color: uintn, before: seq<byte>, p: nat, count: nat, k: nat)
    requires size <= |before| && p == bpp * count && k < bpp && p + k < size
    ensures Filled(size, bpp, color, before)[p + k] == ColorByte(color, k)
  {
    DivUnique(p + k, bpp, count, k);
    assert Filled(size, bpp, color, before)[p + k] == ColorByte(color, (p + k) % bpp);
  }

  lemma FilledPixel(size: nat, bpp: nat, color: uintn, before: seq<byte>, count: nat, n: nat)
    requires 0 < bpp && size <= |before| && count < n && size == bpp * n
    ensures PixelIs(Filled(size, bpp, color, before), RunStart(bpp, count), bpp, color)
  {
    var p := RunStart(bpp, count);
    RunIndex(bpp, n, count, p + bpp - 1);
    RunStartValue(bpp, count);
    forall k | 0 <= k < bpp
      ensures Filled(size, bpp, color, before)[p + k] == ColorByte(color, k)
    {
      FilledByte(size, bpp, color, before, p, count, k);
    }
  }

  /** Sets all pixels, walking over the buffer once; what follows the pixels stays as it is. */
  method ResetFb(mem: array<byte>, width: nat, height: nat, bpp: nat, color: uintn, ghost size: nat)
    requires 0 < bpp && size == bpp * (height * width) <= mem.Length
    modifies mem
    ensures mem[..] == Filled(size, bpp, color, old(mem[..]))
  {
    ghost var before := mem[..];
    ghost var target := Filled(size, bpp, color, before);
    var pixels: nat := 0;
    ghost var count: nat := 0;
    for i := 0 to width
      invariant count == RunStart(height, i) && pixels == RunStart(bpp, count)
      invariant Swept(mem, before, target, pixels)
    {
      for j := 0 to height
        invariant count == RunStart(height, i) + j && pixels == RunStart(bpp, count)
        invariant Swept(mem, before, target, pixels)
      {
        RunIndex(height, width, i, count);
        FilledPixel(size, bpp, color, before, count, height * width);
        pixels := PutPixel(mem, pixels, bpp, color, before, target);
        count := count + 1;
      }
    }
    RunStartValue(height, width);
    RunStartValue(bpp, count);
    assert mem[..] == target;
  }
}
