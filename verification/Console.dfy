/** The cursor machine and the writers of FrameBufferSerialPortLib.c. */
module Console {
  import opened MachineWord
  import opened Arith
  import opened Pixels
  import opened Glyph
  import opened ScreenModel

  const SCALE_FACTOR: nat := 1

  /** The byte offset that the library computes for a cell, factor by factor. */
  lemma FlatOffset(y: nat, x: nat, bpp: nat, width: nat)
    ensures y * (bpp * 12 * width) + x * (bpp * 6) == (12 * y * width + 6 * x) * bpp
  {
    Distributes(12 * y * width, 6 * x, bpp);
    assert y * (bpp * 12 * width) == 12 * y * width * bpp;
  }

  lemma CellOffset(d: Display, line: nat, col: nat)
    requires d.Valid()
    ensures RunStart(d.s, line) * (d.bpp * FONT_HEIGHT * d.width) + col * d.s * (d.bpp * (FONT_WIDTH + 1))
            == d.CellArea(line, col).Index(0, 0)
  {
    RunStartValue(d.s, col);
    FlatOffset(RunStart(d.s, line), RunStart(d.s, col), d.bpp, d.width);
  }

  lemma UnitFits(unit: nat, total: nat, q: nat)
    requires 0 < unit && q < total / unit
    ensures unit * q + unit <= total
  {
    MulMonotone(q + 1, total / unit, unit);
    Distributes(q, 1, unit);
  }

  lemma RunFits(s: nat, total: nat, q: nat)
    requires 0 < s && q < total / s
    ensures RunStart(s, q) + s <= total
  {
    RunStartValue(s, q);
    UnitFits(s, total, q);
  }

  lemma FlatEnd(width: nat, height: nat, bpp: nat, y: nat, x: nat)
    requires y < height && x <= width
    ensures (y * width + x) * bpp <= bpp * (height * width)
  {
    MulMonotone(y + 1, height, width);
    Distributes(y, 1, width);
    MulMonotone(y * width + x, height * width, bpp);
  }

  lemma CellFits(d: Display, line: nat, col: nat)
    requires d.Valid()
    requires line < d.GridSize().rows && col < d.GridSize().cols
    ensures d.CellArea(line, col).Fits(d.bpp * (d.height * d.width))
  {
    var a := d.CellArea(line, col);
    RunFits(d.s, d.MaxX(), col);
    RunFits(d.s, d.MaxY() - 1, line);
    IndexValue(a, 12 * d.s - 1, 5 * d.s);
    FlatEnd(d.width, d.height, d.bpp, a.y0 + 12 * d.s - 1, a.x0 + 5 * d.s);
  }

  /** The cursor's line limit in pixels rows of characters, as a limit on lines of scale `s`. */
  lemma LineLimit(d: Display, line: nat)
    requires d.Valid()
    ensures RunStart(d.s, line) >= d.MaxY() - d.s <==> line >= d.GridSize().rows
  {
    var total := d.MaxY() - 1;
    RunStartValue(d.s, line);
    assert total == d.s * (total / d.s) + total % d.s;
    if line < total / d.s {
      UnitFits(d.s, total, line);
    } else {
      MulMonotone(total / d.s, line, d.s);
    }
  }

  /** The unsigned difference that the line is compared with: it wraps when the scale is larger. */
  function LastLine(maxY: nat, s: nat): int
  {
    if s <= maxY then maxY - s else maxY - s + WORD_MODULUS
  }

  /** One pass over a newline: the cursor's next line, and whether it clears and jumps back to `paint`. */
  function NewlinePass(y: nat, maxY: nat, s: nat): (nat, bool)
  {
    if y + s >= LastLine(maxY, s) then (0, true) else (y + s, false)
  }

  /** The newline is still being handled after `n` passes. */
  predicate StillPainting(y: nat, maxY: nat, s: nat, n: nat)
  {
    n == 0 || (NewlinePass(y, maxY, s).1 && StillPainting(NewlinePass(y, maxY, s).0, maxY, s, n - 1))
  }

  lemma {:induction false} NeverDone(y: nat, maxY: nat, s: nat, n: nat)
    requires s <= maxY <= 2 * s
    ensures StillPainting(y, maxY, s, n)
  {
    if n == 0 {
    } else {
      NeverDone(0, maxY, s, n - 1);
    }
  }

  /**
   On a display `maxY` characters high, a newline at scale `s` is handled in finitely
   many passes, and then in two, unless `maxY` is at least once and at most twice `s`.
   */
  lemma NewlineEndsExactlyWhen(y: nat, maxY: nat, s: nat)
    requires y <= maxY && 2 * s < WORD_MODULUS
    ensures (exists n: nat :: !StillPainting(y, maxY, s, n)) <==> maxY < s || maxY > 2 * s
    ensures maxY < s || maxY > 2 * s ==> !StillPainting(y, maxY, s, 2)
  {
    if s <= maxY <= 2 * s {
      forall n: nat
        ensures StillPainting(y, maxY, s, n)
      {
        NeverDone(y, maxY, s, n);
      }
    } else {
      assert NewlinePass(0, maxY, s) == (s, false);
      assert !StillPainting(0, maxY, s, 1);
      assert !StillPainting(y, maxY, s, 2);
    }
  }

  lemma ColumnLimit(d: Display)
    requires d.Valid()
    ensures d.GridSize().cols >= 1 && d.GridSize().rows >= 2
  {
    MulMonotone(1, d.MaxX() / d.s, d.s);
  }

  /** All pixels have the clearing color. */
  ghost predicate IsBlack(mem: seq<byte>, bpp: nat)
    requires 0 < bpp
  {
    forall i {:trigger ColorByte(BLACK, i % bpp)} :: 0 <= i < |mem| ==> mem[i] == ColorByte(BLACK, i % bpp)
  }

  lemma BlackIsPicture(d: Display, mem: seq<byte>)
    requires d.Valid() && IsBlack(mem, d.bpp)
    ensures IsPicture(d, map[], mem)
  {
    forall i | 0 <= i < |mem|
      ensures mem[i] == PictureByte(d, map[], i)
    {
      assert mem[i] == ColorByte(BLACK, i % d.bpp);
    }
  }

  lemma FilledIsPicture(d: Display, size: nat, before: seq<byte>)
    requires d.Valid() && size <= |before|
    ensures IsPicture(d, map[], Filled(size, d.bpp, BLACK, before)[..size])
  {
    var mem := Filled(size, d.bpp, BLACK, before);
    forall i | 0 <= i < size
      ensures mem[..size][i] == ColorByte(BLACK, i % d.bpp)
    {
      assert mem[i] == ColorByte(BLACK, i % d.bpp);
    }
    BlackIsPicture(d, mem[..size]);
  }

  /** A drawn glyph changes the picture of the pixels and nothing behind them. */
  lemma DrawnInPixels(d: Display, cells: map<(nat, nat), Cell>, line: nat, col: nat, cell: Cell, size: nat,
                      before: seq<byte>, after: seq<byte>)
    requires d.Valid() && size <= |before| && IsPicture(d, cells, before[..size])
    requires d.CellArea(line, col).Fits(size)
    requires IsDrawn(d.CellArea(line, col), d.font[(cell.code - 32) * 2], d.font[(cell.code - 32) * 2 + 1],
                     cell.foreground, cell.background, before, after)
    ensures IsPicture(d, cells[(line, col) := cell], after[..size])
    ensures after[size..] == before[size..]
  {
    var a := d.CellArea(line, col);
    var g0, g1 := d.font[(cell.code - 32) * 2], d.font[(cell.code - 32) * 2 + 1];
    forall i | 0 <= i < size
      ensures after[..size][i] == DrawnByte(a, g0, g1, cell.foreground, cell.background, before[..size], i)
    {
      assert after[i] == DrawnByte(a, g0, g1, cell.foreground, cell.background, before, i);
    }
    DrawnCellIsPicture(d, cells, line, col, cell, before[..size], after[..size]);
    forall i | size <= i < |before|
      ensures after[i] == before[i]
    {
      BehindIsOutside(a, size, i);
      assert after[i] == DrawnByte(a, g0, g1, cell.foreground, cell.background, before, i);
    }
  }

  /**
   The console. `mem` is the display memory: the pixels, then what is stored behind
   them, where the library keeps its cursor record (`x`, `y` here).
   */
  class FrameBufferConsole {
    const width: nat
    const height: nat
    const bpp: nat
    const font: seq<uintn>
    const mem: array<byte>

    var x: int
    var y: int
    var maxX: int
    var maxY: int
    var foreground: uintn
    var background: uintn

    /** The abstract screen that the pixels show. */
    ghost var screen: Screen

    function DisplayAt(s: nat): Display
    {
      Display(width, height, bpp, s, font)
    }

    ghost function PixelBytes(): nat
    {
      bpp * (height * width)
    }

    /** What is stored behind the pixels. */
    ghost function Tail(): seq<byte>
      requires PixelBytes() <= mem.Length
      reads mem
    {
      mem[PixelBytes()..]
    }

    /**
     The pixels are the picture of the screen, whose cursor is the console's. The
     display is wide enough for one cell of scale `s` and high enough for two lines.
     */
    ghost predicate Valid(s: nat)
      reads this, mem
    {
      && DisplayAt(s).Valid() && PixelBytes() <= mem.Length
      && maxX == DisplayAt(s).MaxX() && maxY == DisplayAt(s).MaxY()
      && InGrid(screen, DisplayAt(s).GridSize())
      && x == screen.col && y == RunStart(s, screen.line)
      && IsPicture(DisplayAt(s), screen.cells, mem[..PixelBytes()])
    }

    /** `FbConReset`: the limits of the cursor and the colors. */
    method FbConReset()
      requires 0 < height
      modifies this`maxX, this`maxY, this`foreground, this`background
      ensures maxX == width / 6 && maxY == (height - 1) / 12
      ensures foreground == WHITE && background == BLACK
    {
      maxX := width / (FONT_WIDTH + 1);
      maxY := (height - 1) / FONT_HEIGHT;
      foreground := WHITE;
      background := BLACK;
    }

    /**
     `SerialPortInitialize` with a zeroed cursor record. On a black display the console
     shows the blank screen.
     */
    constructor (width: nat, height: nat, bpp: nat, font: seq<uintn>, mem: array<byte>)
      requires 0 < height
      ensures this.width == width && this.height == height && this.bpp == bpp && this.font == font && this.mem == mem
      ensures maxX == width / (FONT_WIDTH + 1) && maxY == (height - 1) / FONT_HEIGHT && x == 0 && y == 0
      ensures foreground == WHITE && background == BLACK && screen == BLANK
      ensures DisplayAt(SCALE_FACTOR).Valid() && PixelBytes() <= mem.Length && IsBlack(mem[..PixelBytes()], bpp) ==>
                Valid(SCALE_FACTOR)
    {
      this.width := width;
      this.height := height;
      this.bpp := bpp;
      this.font := font;
      this.mem := mem;
      x := 0;
      y := 0;
      screen := BLANK;
      new;
      FbConReset();
      if DisplayAt(SCALE_FACTOR).Valid() && PixelBytes() <= mem.Length && IsBlack(mem[..PixelBytes()], bpp) {
        ColumnLimit(DisplayAt(SCALE_FACTOR));
        BlackIsPicture(DisplayAt(SCALE_FACTOR), mem[..PixelBytes()]);
      }
    }

    /** The painting part of `FbConPutCharWithFactor`: the glyph of a printable character at the cursor. */
    method DrawAtCursor(c: Code, s: nat)
      requires Valid(s)
      modifies mem, this`screen
      ensures Valid(s) && Tail() == old(Tail())
      ensures screen == Placed(old(screen), Cell(c, foreground, background))
    {
      ghost var d := DisplayAt(s);
      CellFits(d, screen.line, screen.col);
      CellOffset(d, screen.line, screen.col);
      var pixels := y * (bpp * FONT_HEIGHT * width);
      pixels := pixels + x * s * (bpp * (FONT_WIDTH + 1));
      ghost var before := mem[..];
      assert before[..PixelBytes()] == mem[..PixelBytes()];
      DrawGlyph(mem, pixels, width, bpp, font[(c - 32) * 2], font[(c - 32) * 2 + 1], s, foreground, background,
                d.CellArea(screen.line, screen.col));
      DrawnInPixels(d, screen.cells, screen.line, screen.col, Cell(c, foreground, background), PixelBytes(),
                    before, mem[..]);
      assert mem[..][..PixelBytes()] == mem[..PixelBytes()];
      screen := Placed(screen, Cell(c, foreground, background));
    }

    /** The clearing part: black pixels and the cursor in the first line. */
    method ClearScreen(s: nat)
      requires DisplayAt(s).Valid() && PixelBytes() <= mem.Length
      requires maxX == DisplayAt(s).MaxX() && maxY == DisplayAt(s).MaxY() && x == 0
      modifies mem, this`screen, this`y
      ensures Valid(s) && Tail() == old(Tail()) && screen == BLANK
    {
      ghost var before := mem[..];
      ResetFb(mem, width, height, bpp, BLACK, PixelBytes());
      y := 0;
      screen := BLANK;
      FilledIsPicture(DisplayAt(s), PixelBytes(), before);
      assert mem[..][..PixelBytes()] == mem[..PixelBytes()];
      ColumnLimit(DisplayAt(s));
    }

    /**
     The part from `newline2` on, on any display: the next line, or black pixels, the first
     line, and the jump back to `paint`.
     */
    method AdvanceLine(s: nat) returns (again: bool)
      requires 0 < bpp && PixelBytes() <= mem.Length && 0 <= y && 0 <= maxY
      modifies mem, this`x, this`y
      ensures x == 0 && (y, again) == NewlinePass(old(y), maxY, s)
      ensures mem[..] == if again then Filled(PixelBytes(), bpp, BLACK, old(mem[..])) else old(mem[..])
    {
      y := y + s;
      x := 0;
      again := y >= LastLine(maxY, s);
      if again {
        ResetFb(mem, width, height, bpp, BLACK, PixelBytes());
        y := 0;
      }
    }

    /** The first `n` passes over a newline, on any display, and whether it is still being handled then. */
    method NewlinePasses(s: nat, n: nat) returns (still: bool)
      requires 0 < bpp && PixelBytes() <= mem.Length && 0 <= y && 0 <= maxY
      modifies mem, this`x, this`y
      ensures still == StillPainting(old(y), maxY, s, n)
    {
      still := true;
      var i := 0;
      while i < n && still
        invariant 0 <= i <= n && 0 <= y
        invariant StillPainting(old(y), maxY, s, n) == (still && StillPainting(y, maxY, s, n - i))
        decreases n - i
      {
        still := AdvanceLine(s);
        i := i + 1;
      }
    }

    /** The move to the next line, or to a cleared screen, after which the caller paints again. */
    method NextLine(s: nat, ghost size: Size) returns (again: bool)
      requires DisplayAt(s).Valid() && PixelBytes() <= mem.Length && size == DisplayAt(s).GridSize()
      requires maxX == DisplayAt(s).MaxX() && maxY == DisplayAt(s).MaxY() && y == RunStart(s, screen.line)
      requires screen.line < size.rows
      requires forall key :: key in screen.cells ==> key.0 <= screen.line && key.1 < size.cols
      requires IsPicture(DisplayAt(s), screen.cells, mem[..PixelBytes()])
      modifies mem, this`x, this`y, this`screen
      ensures Valid(s) && Tail() == old(Tail())
      ensures again == (old(screen.line) + 1 >= size.rows)
      ensures screen == if again then BLANK else old(screen).(line := old(screen).line + 1, col := 0)
    {
      ColumnLimit(DisplayAt(s));
      LineLimit(DisplayAt(s), screen.line + 1);
      ghost var before := mem[..];
      again := AdvanceLine(s);
      assert mem[..][..PixelBytes()] == mem[..PixelBytes()] && before[..PixelBytes()] == old(mem[..PixelBytes()]);
      if again {
        screen := BLANK;
        FilledIsPicture(DisplayAt(s), PixelBytes(), before);
      } else {
        screen := screen.(line := screen.line + 1, col := 0);
      }
    }

    /** The part that shows a printable character and moves the cursor. */
    method PaintGlyph(c: Code, kind: MsgType, s: nat) returns (again: bool)
      requires Valid(s) && !IsSkippedSpace(screen, c, kind)
      modifies mem, this`x, this`y, this`screen
      ensures Valid(s) && Tail() == old(Tail())
      ensures again ==> old(screen).line + 1 == DisplayAt(s).GridSize().rows && screen == BLANK
      ensures var size := DisplayAt(s).GridSize();
              if again then Put(old(screen), size, c, kind, foreground, background)
                         == Put(BLANK, size, c, kind, foreground, background)
              else screen == Put(old(screen), size, c, kind, foreground, background)
    {
      ColumnLimit(DisplayAt(s));
      DrawAtCursor(c, s);
      x := x + 1;
      again := x >= maxX / s;
      if again {
        again := NextLine(s, DisplayAt(s).GridSize());
      } else {
        screen := screen.(col := screen.col + 1);
      }
    }

    /** From the label `paint` to a return, or to the jump back. */
    method Paint(c: byte, kind: MsgType, s: nat) returns (again: bool)
      requires Valid(s)
      modifies mem, this`x, this`y, this`screen
      ensures Valid(s) && Tail() == old(Tail())
      ensures again ==> old(screen).line + 1 == DisplayAt(s).GridSize().rows && screen == BLANK
      ensures var size := DisplayAt(s).GridSize();
              if again then Put(old(screen), size, c, kind, foreground, background)
                         == Put(BLANK, size, c, kind, foreground, background)
              else screen == Put(old(screen), size, c, kind, foreground, background)
    {
      again := false;
      ghost var size := DisplayAt(s).GridSize();
      ColumnLimit(DisplayAt(s));
      if c > 127 {
        return;
      }
      if c < 32 {
        if c == NEWLINE {
          again := NextLine(s, size);
        } else if c == CARRIAGE_RETURN {
          x := 0;
          screen := screen.(col := 0);
        }
        return;
      }
      if x == 0 && c == SPACE && kind != SubtitleMsg && kind != TitleMsg {
        return;
      }
      again := PaintGlyph(c, kind, s);
    }

    /**
     `FbConPutCharWithFactor`: one character, following the rules of the grid. The
     jump back to `paint` after clearing the screen happens at most once, and nothing
     behind the pixels is written.
     */
    method PutCharWithFactor(c: byte, kind: MsgType, s: nat) returns (ghost repaints: nat)
      requires Valid(s)
      modifies mem, this`x, this`y, this`screen
      ensures Valid(s) && Tail() == old(Tail()) && repaints <= 1
      ensures screen == Put(old(screen), DisplayAt(s).GridSize(), c, kind, foreground, background)
    {
      ColumnLimit(DisplayAt(s));
      repaints := 0;
      var again := Paint(c, kind, s);
      while again
        invariant Valid(s) && Tail() == old(Tail()) && repaints <= 1
        invariant again ==> repaints == 0 && screen == BLANK
        invariant Put(old(screen), DisplayAt(s).GridSize(), c, kind, foreground, background)
               == if again then Put(BLANK, DisplayAt(s).GridSize(), c, kind, foreground, background) else screen
        decreases 1 - repaints
      {
        again := Paint(c, kind, s);
        repaints := repaints + 1;
      }
    }

    /** `SerialPortWrite`. */
    method SerialPortWrite(buffer: seq<byte>) returns (written: nat)
      requires Valid(SCALE_FACTOR)
      modifies mem, this`x, this`y, this`screen
      ensures Valid(SCALE_FACTOR) && Tail() == old(Tail()) && written == |buffer|
      ensures screen == PutAll(old(screen), DisplayAt(SCALE_FACTOR).GridSize(), buffer, CommonMsg,
                               foreground, background)
    {
      var i := 0;
      while i < |buffer|
        invariant i <= |buffer| && Valid(SCALE_FACTOR) && Tail() == old(Tail())
        invariant screen == PutAll(old(screen), DisplayAt(SCALE_FACTOR).GridSize(), buffer[..i], CommonMsg,
                                   foreground, background)
      {
        ghost var repaints := PutCharWithFactor(buffer[i], CommonMsg, SCALE_FACTOR);
        assert buffer[..i + 1][..i] == buffer[..i];
        i := i + 1;
      }
      assert buffer[..i] == buffer;
      written := |buffer|;
    }

    /** `SerialPortWriteCritical`: the same in yellow, after which the color is what it was. */
    method SerialPortWriteCritical(buffer: seq<byte>) returns (written: nat)
      requires Valid(SCALE_FACTOR)
      modifies mem, this`x, this`y, this`screen, this`foreground
      ensures Valid(SCALE_FACTOR) && Tail() == old(Tail()) && written == |buffer|
      ensures foreground == old(foreground)
      ensures screen == PutAll(old(screen), DisplayAt(SCALE_FACTOR).GridSize(), buffer, CommonMsg, YELLOW, background)
    {
      var current := foreground;
      foreground := YELLOW;
      var i := 0;
      while i < |buffer|
        invariant i <= |buffer| && Valid(SCALE_FACTOR) && Tail() == old(Tail()) && foreground == YELLOW
        invariant screen == PutAll(old(screen), DisplayAt(SCALE_FACTOR).GridSize(), buffer[..i], CommonMsg,
                                   YELLOW, background)
      {
        ghost var repaints := PutCharWithFactor(buffer[i], CommonMsg, SCALE_FACTOR);
        assert buffer[..i + 1][..i] == buffer[..i];
        i := i + 1;
      }
      assert buffer[..i] == buffer;
      foreground := current;
      written := |buffer|;
    }
  }

  // ---------- Whole runs ----------

  datatype Write = Normal(text: seq<byte>) | Critical(text: seq<byte>)

  /** The screen after a sequence of writes in the colors of `FbConReset`. */
  function AfterWrites(scr: Screen, size: Size, writes: seq<Write>): Screen
  {
    if writes == [] then scr
    else
      var last := writes[|writes| - 1];
      PutAll(AfterWrites(scr, size, writes[..|writes| - 1]), size, last.text, CommonMsg,
             if last.Normal? then WHITE else YELLOW, BLACK)
  }

  /** A further write that fits is shown in white, a critical one in yellow, on black, whatever was written before. */
  lemma WriteIsShown(scr: Screen, size: Size, writes: seq<Write>, write: Write)
    requires var now := AfterWrites(scr, size, writes);
             now.col + |write.text| < size.cols && IsShownText(now, write.text, CommonMsg)
    ensures ShowsWord(AfterWrites(scr, size, writes), AfterWrites(scr, size, writes + [write]), write.text,
                      if write.Critical? then 0xFFFF_FF00 else 0xFFFF_FFFF, 0xFF00_0000)
  {
    var all := writes + [write];
    assert all[..|all| - 1] == writes && all[|all| - 1] == write;
    WordIsShown(AfterWrites(scr, size, writes), size, write.text, CommonMsg,
                if write.Critical? then YELLOW else WHITE, BLACK);
  }

  /** From a cleared screen, any sequence of writes leaves the picture of the screen the rules give. */
  method RunWrites(console: FrameBufferConsole, writes: seq<Write>)
    requires console.Valid(SCALE_FACTOR) && console.screen == BLANK
    requires console.foreground == WHITE && console.background == BLACK
    modifies console.mem, console`x, console`y, console`screen, console`foreground
    ensures console.Valid(SCALE_FACTOR) && console.Tail() == old(console.Tail())
    ensures console.screen == AfterWrites(BLANK, console.DisplayAt(SCALE_FACTOR).GridSize(), writes)
  {
    var i := 0;
    while i < |writes|
      invariant i <= |writes| && console.Valid(SCALE_FACTOR) && console.Tail() == old(console.Tail())
      invariant console.foreground == WHITE
      invariant console.screen == AfterWrites(BLANK, console.DisplayAt(SCALE_FACTOR).GridSize(), writes[..i])
    {
      var written;
      match writes[i] {
        case Normal(text) => written := console.SerialPortWrite(text);
        case Critical(text) => written := console.SerialPortWriteCritical(text);
      }
      assert writes[..i + 1][..i] == writes[..i];
      i := i + 1;
    }
    assert writes[..i] == writes;
  }

  /** The same for a display memory, from the initialization of the library and a cleared screen on. */
  method RunOnDisplay(d: Display, mem: array<byte>, writes: seq<Write>)
    requires d.Valid() && d.s == SCALE_FACTOR && d.bpp * (d.height * d.width) <= mem.Length
    modifies mem
    ensures var size := d.bpp * (d.height * d.width);
            && IsPicture(d, AfterWrites(BLANK, d.GridSize(), writes).cells, mem[..size])
            && mem[size..] == old(mem[size..])
  {
    var console := new FrameBufferConsole(d.width, d.height, d.bpp, d.font, mem);
    assert console.DisplayAt(SCALE_FACTOR) == d;
    console.ClearScreen(SCALE_FACTOR);
    RunWrites(console, writes);
  }
}
