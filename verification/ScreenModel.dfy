/** What the console shows: a grid of coloured characters with a cursor, and its picture. */
module ScreenModel {
  import opened MachineWord
  import opened Arith
  import opened Pixels
  import opened Glyph

  const BLACK: uintn := 0xFF00_0000
  const WHITE: uintn := 0xFFFF_FFFF
  const YELLOW: uintn := 0xFFFF_FF00

  const SPACE: byte := 32
  const NEWLINE: byte := 10
  const CARRIAGE_RETURN: byte := 13

  datatype MsgType =
    | CommonMsg | UnlockTitleMsg | TitleMsg | SubtitleMsg
    | YellowMsg | OrangeMsg | RedMsg | GreenMsg | SelectMsgBgColor

  type Code = c: byte | 32 <= c <= 127 witness 32

  datatype Cell = Cell(code: Code, foreground: uintn, background: uintn)

  /** Cells by line and column, and the cursor. */
  datatype Screen = Screen(cells: map<(nat, nat), Cell>, line: nat, col: nat)

  datatype Size = Size(rows: nat, cols: nat)

  const BLANK := Screen(map[], 0, 0)

  // ---------- The rules of the grid ----------

  predicate IsSkippedSpace(scr: Screen, c: byte, kind: MsgType)
  {
    c == SPACE && scr.col == 0 && kind != TitleMsg && kind != SubtitleMsg
  }

  function Placed(scr: Screen, cell: Cell): Screen
  {
    scr.(cells := scr.cells[(scr.line, scr.col) := cell])
  }

  /**
   One character. Codes above 127 and control codes other than newline and carriage
   return do nothing. A leading space is skipped outside titles. A full line goes on
   in the next one. When there is no next line, the screen is cleared and the
   character starts again on the blank screen: a newline ends in line 1, and the
   character that filled the last line is shown once more at the top.
   */
  function Put(scr: Screen, size: Size, c: byte, kind: MsgType, foreground: uintn, background: uintn): Screen
  {
    if c > 127 then scr
    else if c == NEWLINE then
      if scr.line + 1 < size.rows then scr.(line := scr.line + 1, col := 0) else Screen(map[], 1, 0)
    else if c == CARRIAGE_RETURN then scr.(col := 0)
    else if c < 32 then scr
    else if IsSkippedSpace(scr, c, kind) then scr
    else
      var cell := Cell(c, foreground, background);
      if scr.col + 1 < size.cols then Placed(scr, cell).(col := scr.col + 1)
      else if scr.line + 1 < size.rows then Placed(scr, cell).(line := scr.line + 1, col := 0)
      else if IsSkippedSpace(BLANK, c, kind) then BLANK
      else Placed(BLANK, cell).(line := if size.cols > 1 then 0 else 1, col := if size.cols > 1 then 1 else 0)
  }

  function PutAll(scr: Screen, size: Size, text: seq<byte>, kind: MsgType, foreground: uintn, background: uintn): Screen
  {
    if text == [] then scr
    else
      var before := PutAll(scr, size, text[..|text| - 1], kind, foreground, background);
      Put(before, size, text[|text| - 1], kind, foreground, background)
  }

  /** The cursor is inside the grid, and so are all cells, none of them below the cursor. */
  ghost predicate InGrid(scr: Screen, size: Size)
  {
    scr.line < size.rows && scr.col < size.cols &&
    forall key :: key in scr.cells ==> key.0 <= scr.line && key.1 < size.cols
  }

  lemma PutStaysInGrid(scr: Screen, size: Size, c: byte, kind: MsgType, foreground: uintn, background: uintn)
    requires InGrid(scr, size) && size.rows >= 2
    ensures InGrid(Put(scr, size, c, kind, foreground, background), size)
  {
  }

  /** A character that moves on from the last line, and so clears the screen. */
  predicate Clears(scr: Screen, size: Size, c: byte, kind: MsgType)
  {
    scr.line + 1 >= size.rows
    && (c == NEWLINE || (32 <= c <= 127 && !IsSkippedSpace(scr, c, kind) && scr.col + 1 >= size.cols))
  }

  /** Such a character leaves at most itself, at the top left; every other one leaves all cells but the cursor's. */
  lemma ClearingLosesAllCells(scr: Screen, size: Size, c: byte, kind: MsgType, foreground: uintn, background: uintn)
    requires InGrid(scr, size)
    ensures var after := Put(scr, size, c, kind, foreground, background);
            if Clears(scr, size, c, kind) then
              forall key :: key in after.cells ==> key == (0, 0) && after.cells[key].code == c
            else
              forall key :: key in scr.cells && key != (scr.line, scr.col) ==>
                key in after.cells && after.cells[key] == scr.cells[key]
  {
  }

  /**
   Text goes on in the first line of the cleared screen if and only if the character
   is no newline and leaves room in that line; otherwise it goes on in the second.
   */
  lemma LineAfterClearing(scr: Screen, size: Size, c: byte, kind: MsgType, foreground: uintn, background: uintn)
    requires Clears(scr, size, c, kind)
    ensures var line := Put(scr, size, c, kind, foreground, background).line;
            && (line == 0 <==> c != NEWLINE && (size.cols > 1 || IsSkippedSpace(BLANK, c, kind)))
            && (line != 0 ==> line == 1)
  {
  }

  /** A letter after a newline on the last of three lines: the first line stays empty. */
  lemma NewlineOnLastLine()
    ensures var scr := Screen(map[], 2, 0);
            PutAll(scr, Size(3, 40), [NEWLINE, 65], CommonMsg, WHITE, BLACK)
            == Screen(map[(1, 0) := Cell(65, WHITE, BLACK)], 1, 1)
  {
    var scr, size := Screen(map[], 2, 0), Size(3, 40);
    assert [NEWLINE, 65][..1] == [NEWLINE] && [NEWLINE][..0] == [];
    assert PutAll(scr, size, [NEWLINE], CommonMsg, WHITE, BLACK) == Put(scr, size, NEWLINE, CommonMsg, WHITE, BLACK);
  }

  ghost predicate CellShows(cells: map<(nat, nat), Cell>, key: (nat, nat), c: byte,
                            foreground: uintn, background: uintn)
  {
    32 <= c <= 127 && key in cells && cells[key] == Cell(c, foreground, background)
  }

  ghost predicate SameAt(before: map<(nat, nat), Cell>, after: map<(nat, nat), Cell>, key: (nat, nat))
  {
    (key in after <==> key in before) && (key in before ==> after[key] == before[key])
  }

  /** The word stands in the cursor's line from the cursor on, the cursor behind it, and all else is as it was. */
  ghost predicate ShowsWord(before: Screen, after: Screen, word: seq<byte>, foreground: uintn, background: uintn)
  {
    && after.line == before.line && after.col == before.col + |word|
    && (forall key: (nat, nat), i :: 0 <= i < |word| && key == (before.line, before.col + i) ==>
          CellShows(after.cells, key, word[i], foreground, background))
    && (forall key: (nat, nat) :: key.0 != before.line || key.1 < before.col || key.1 >= before.col + |word| ==>
          SameAt(before.cells, after.cells, key))
  }

  lemma ShowsOneMore(before: Screen, now: Screen, word: seq<byte>, c: Code, foreground: uintn, background: uintn)
    requires ShowsWord(before, now, word, foreground, background)
    ensures ShowsWord(before, Placed(now, Cell(c, foreground, background)).(col := now.col + 1), word + [c],
                      foreground, background)
  {
    var next, more := now.cells[(now.line, now.col) := Cell(c, foreground, background)], word + [c];
    forall key: (nat, nat), i | 0 <= i < |more| && key == (before.line, before.col + i)
      ensures CellShows(next, key, more[i], foreground, background)
    {
      if i < |word| {
        assert CellShows(now.cells, key, word[i], foreground, background);
      }
    }
  }

  /** A printable text that does not start with a space that is skipped, because it stands first in its line. */
  ghost predicate IsShownText(scr: Screen, text: seq<byte>, kind: MsgType)
  {
    && (forall i :: 0 <= i < |text| ==> 32 <= text[i] <= 127)
    && (text == [] || text[0] != 32 || scr.col > 0 || kind == TitleMsg || kind == SubtitleMsg)
  }

  /** A text that fits in the rest of the line is shown in order from the cursor on, and nothing else changes. */
  lemma {:induction false} WordIsShown(scr: Screen, size: Size, word: seq<byte>, kind: MsgType,
                                       foreground: uintn, background: uintn)
    requires scr.col + |word| < size.cols && IsShownText(scr, word, kind)
    ensures ShowsWord(scr, PutAll(scr, size, word, kind, foreground, background), word, foreground, background)
  {
    if word == [] {
    } else {
      var init, last := word[..|word| - 1], word[|word| - 1];
      WordIsShown(scr, size, init, kind, foreground, background);
      var before := PutAll(scr, size, init, kind, foreground, background);
      assert 32 <= last <= 127 && !IsSkippedSpace(before, last, kind);
      assert PutAll(scr, size, word, kind, foreground, background)
          == Placed(before, Cell(last, foreground, background)).(col := before.col + 1);
      ShowsOneMore(scr, before, init, last, foreground, background);
      assert word == init + [last];
    }
  }

  lemma {:induction false} PutAllOfConcat(scr: Screen, size: Size, a: seq<byte>, b: seq<byte>, kind: MsgType,
                                          foreground: uintn, background: uintn)
    ensures PutAll(scr, size, a + b, kind, foreground, background)
         == PutAll(PutAll(scr, size, a, kind, foreground, background), size, b, kind, foreground, background)
  {
    if b == [] {
      assert a + b == a;
    } else {
      assert (a + b)[..|a + b| - 1] == a + b[..|b| - 1];
      PutAllOfConcat(scr, size, a, b[..|b| - 1], kind, foreground, background);
    }
  }

  lemma PutOne(scr: Screen, size: Size, c: byte, kind: MsgType, foreground: uintn, background: uintn)
    ensures PutAll(scr, size, [c], kind, foreground, background) == Put(scr, size, c, kind, foreground, background)
  {
    assert [c][..0] == [];
  }

  /** After a carriage return, text is shown in the same line from its first column on, and nothing else changes. */
  lemma CarriageReturnThenWord(scr: Screen, size: Size, word: seq<byte>, kind: MsgType,
                               foreground: uintn, background: uintn)
    requires |word| < size.cols && IsShownText(scr.(col := 0), word, kind)
    ensures ShowsWord(scr.(col := 0), PutAll(scr, size, [13] + word, kind, foreground, background), word,
                      foreground, background)
  {
    PutAllOfConcat(scr, size, [13], word, kind, foreground, background);
    assert PutAll(scr, size, [13], kind, foreground, background) == scr.(col := 0) by {
      PutOne(scr, size, 13, kind, foreground, background);
    }
    WordIsShown(scr.(col := 0), size, word, kind, foreground, background);
  }

  /** After a newline above the last line, text is shown in the next one from its first column on. */
  lemma NewlineThenWord(scr: Screen, size: Size, word: seq<byte>, kind: MsgType, foreground: uintn, background: uintn)
    requires scr.line + 1 < size.rows && |word| < size.cols && IsShownText(scr.(col := 0), word, kind)
    ensures ShowsWord(Screen(scr.cells, scr.line + 1, 0), PutAll(scr, size, [10] + word, kind, foreground, background),
                      word, foreground, background)
  {
    PutAllOfConcat(scr, size, [10], word, kind, foreground, background);
    assert PutAll(scr, size, [10], kind, foreground, background) == Screen(scr.cells, scr.line + 1, 0) by {
      PutOne(scr, size, 10, kind, foreground, background);
    }
    WordIsShown(Screen(scr.cells, scr.line + 1, 0), size, word, kind, foreground, background);
  }

  /** On the last line the newline clears the screen, and text is shown in its second line. */
  lemma LastNewlineThenWord(scr: Screen, size: Size, word: seq<byte>, kind: MsgType,
                            foreground: uintn, background: uintn)
    requires scr.line + 1 >= size.rows && |word| < size.cols && IsShownText(BLANK, word, kind)
    ensures ShowsWord(Screen(map[], 1, 0), PutAll(scr, size, [10] + word, kind, foreground, background), word,
                      foreground, background)
  {
    PutAllOfConcat(scr, size, [10], word, kind, foreground, background);
    assert PutAll(scr, size, [10], kind, foreground, background) == Screen(map[], 1, 0) by {
      PutOne(scr, size, 10, kind, foreground, background);
    }
    WordIsShown(Screen(map[], 1, 0), size, word, kind, foreground, background);
  }

  /** Overwriting the only letter after a carriage return. */
  lemma LetterReturnLetter()
    ensures PutAll(BLANK, Size(3, 40), [65, 13, 66], CommonMsg, WHITE, BLACK)
         == Screen(map[(0, 0) := Cell(66, WHITE, BLACK)], 0, 1)
  {
    var size := Size(3, 40);
    assert [65, 13, 66][..2] == [65, 13] && [65, 13][..1] == [65] && [65][..0] == [];
    assert PutAll(BLANK, size, [65], CommonMsg, WHITE, BLACK) == Put(BLANK, size, 65, CommonMsg, WHITE, BLACK);
    assert PutAll(BLANK, size, [65, 13], CommonMsg, WHITE, BLACK).col == 0;
  }

  /** Other control codes, codes above 127, and spaces in the first column outside titles. */
  ghost predicate IsIgnored(col: nat, c: byte, kind: MsgType)
  {
    (c < 32 && c != 10 && c != 13) || c > 127 || (c == 32 && col == 0 && kind != TitleMsg && kind != SubtitleMsg)
  }

  /** They change nothing. */
  lemma {:induction false} IgnoredTextChangesNothing(scr: Screen, size: Size, text: seq<byte>, kind: MsgType,
                                                     foreground: uintn, background: uintn)
    requires forall i :: 0 <= i < |text| ==> IsIgnored(scr.col, text[i], kind)
    ensures PutAll(scr, size, text, kind, foreground, background) == scr
  {
    if text == [] {
    } else {
      IgnoredTextChangesNothing(scr, size, text[..|text| - 1], kind, foreground, background);
    }
  }

  /** The cursor as a position in the whole grid, line by line. */
  ghost function Position(scr: Screen, size: Size): nat
  {
    size.cols * scr.line + scr.col
  }

  /** The cell at such a position. */
  function CellAt(position: nat, size: Size): (nat, nat)
    requires 0 < size.cols
  {
    (position / size.cols, position % size.cols)
  }

  ghost predicate ShowsAt(cells: map<(nat, nat), Cell>, size: Size, q: nat, c: byte,
                          foreground: uintn, background: uintn)
    requires 0 < size.cols
  {
    CellShows(cells, CellAt(q, size), c, foreground, background)
  }

  /** The text stands at consecutive positions from `p` on. */
  ghost predicate HoldsText(cells: map<(nat, nat), Cell>, size: Size, p: nat, text: seq<byte>,
                            foreground: uintn, background: uintn)
    requires 0 < size.cols
  {
    forall q: nat, i :: 0 <= i < |text| && q == p + i ==> ShowsAt(cells, size, q, text[i], foreground, background)
  }

  /** All other positions are as they were. */
  ghost predicate SameOutside(before: map<(nat, nat), Cell>, after: map<(nat, nat), Cell>, size: Size, p: nat, end: nat)
    requires 0 < size.cols
  {
    forall q: nat :: q < p || end <= q ==> SameAt(before, after, CellAt(q, size))
  }

  /** The text has been shown from the cursor on, over as many lines as it takes, and nothing else has changed. */
  ghost predicate IsLaidOut(before: Screen, after: Screen, size: Size, text: seq<byte>,
                            foreground: uintn, background: uintn)
    requires 0 < size.cols
  {
    var p := Position(before, size);
    && after.col < size.cols && Position(after, size) == p + |text|
    && HoldsText(after.cells, size, p, text, foreground, background)
    && SameOutside(before.cells, after.cells, size, p, p + |text|)
  }

  lemma PositionIsCell(scr: Screen, size: Size)
    requires scr.col < size.cols
    ensures CellAt(Position(scr, size), size) == (scr.line, scr.col)
  {
    DivUnique(Position(scr, size), size.cols, scr.line, scr.col);
  }

  lemma PositionsDiffer(a: nat, b: nat, size: Size)
    requires 0 < size.cols && a != b
    ensures CellAt(a, size) != CellAt(b, size)
  {
    assert a == size.cols * (a / size.cols) + a % size.cols;
    assert b == size.cols * (b / size.cols) + b % size.cols;
  }

  /** A visible character that does not end the last line moves on by one position. */
  lemma NextPosition(scr: Screen, size: Size, c: Code, kind: MsgType, foreground: uintn, background: uintn)
    requires scr.col < size.cols && scr.line < size.rows && c != 32 && Position(scr, size) + 1 < size.cols * size.rows
    ensures var after := Put(scr, size, c, kind, foreground, background);
            && after.cells == scr.cells[(scr.line, scr.col) := Cell(c, foreground, background)]
            && after.col < size.cols && after.line < size.rows && Position(after, size) == Position(scr, size) + 1
  {
    if scr.col + 1 >= size.cols {
      assert size.cols * (scr.line + 1) == size.cols * scr.line + size.cols;
      if scr.line + 1 >= size.rows {
        MulMonotone(size.rows, scr.line + 1, size.cols);
      }
    }
  }

  lemma HoldsOneMore(cells: map<(nat, nat), Cell>, size: Size, p: nat, text: seq<byte>, c: Code,
                     foreground: uintn, background: uintn)
    requires 0 < size.cols && HoldsText(cells, size, p, text, foreground, background)
    ensures HoldsText(cells[CellAt(p + |text|, size) := Cell(c, foreground, background)], size, p, text + [c],
                      foreground, background)
  {
    var next, more := cells[CellAt(p + |text|, size) := Cell(c, foreground, background)], text + [c];
    forall q: nat, i | 0 <= i < |more| && q == p + i
      ensures ShowsAt(next, size, q, more[i], foreground, background)
    {
      if i < |text| {
        PositionsDiffer(q, p + |text|, size);
        assert ShowsAt(cells, size, q, text[i], foreground, background);
      }
    }
  }

  lemma SameOutsideMore(before: map<(nat, nat), Cell>, now: map<(nat, nat), Cell>, size: Size, p: nat, end: nat,
                        cell: Cell)
    requires 0 < size.cols && p <= end && SameOutside(before, now, size, p, end)
    ensures SameOutside(before, now[CellAt(end, size) := cell], size, p, end + 1)
  {
    forall q: nat | q < p || end + 1 <= q
      ensures SameAt(before, now[CellAt(end, size) := cell], CellAt(q, size))
    {
      PositionsDiffer(q, end, size);
      assert SameAt(before, now, CellAt(q, size));
    }
  }

  lemma LaidOutOneMore(before: Screen, now: Screen, next: Screen, size: Size, text: seq<byte>, c: Code,
                       foreground: uintn, background: uintn)
    requires 0 < size.cols && IsLaidOut(before, now, size, text, foreground, background)
    requires next.cells == now.cells[(now.line, now.col) := Cell(c, foreground, background)]
    requires next.col < size.cols && Position(next, size) == Position(now, size) + 1
    ensures IsLaidOut(before, next, size, text + [c], foreground, background)
  {
    var p := Position(before, size);
    PositionIsCell(now, size);
    HoldsOneMore(now.cells, size, p, text, c, foreground, background);
    SameOutsideMore(before.cells, now.cells, size, p, p + |text|, Cell(c, foreground, background));
  }

  /**
   Visible text that leaves room on the screen is laid out over the lines: it goes on in
   the first column of the next line after filling one.
   */
  lemma {:induction false} TextIsLaidOut(scr: Screen, size: Size, text: seq<byte>, kind: MsgType,
                                         foreground: uintn, background: uintn)
    requires scr.col < size.cols && scr.line < size.rows && Position(scr, size) + |text| < size.cols * size.rows
    requires forall i :: 0 <= i < |text| ==> 32 < text[i] <= 127
    ensures var after := PutAll(scr, size, text, kind, foreground, background);
            after.line < size.rows && IsLaidOut(scr, after, size, text, foreground, background)
  {
    if text == [] {
    } else {
      var init, last := text[..|text| - 1], text[|text| - 1];
      TextIsLaidOut(scr, size, init, kind, foreground, background);
      var now := PutAll(scr, size, init, kind, foreground, background);
      NextPosition(now, size, last, kind, foreground, background);
      LaidOutOneMore(scr, now, Put(now, size, last, kind, foreground, background), size, init, last,
                     foreground, background);
      assert text == init + [last];
    }
  }

  /** A visible character in the last cell clears the screen and is shown alone at the top left. */
  lemma LastCellThenTop(scr: Screen, size: Size, c: Code, kind: MsgType, foreground: uintn, background: uintn)
    requires scr.line + 1 == size.rows && scr.col + 1 == size.cols && c != 32
    ensures IsLaidOut(BLANK, Put(scr, size, c, kind, foreground, background), size, [c], foreground, background)
    ensures Put(scr, size, c, kind, foreground, background).cells.Keys == {(0, 0)}
  {
    var after := Put(scr, size, c, kind, foreground, background);
    PositionIsCell(BLANK, size);
    LaidOutOneMore(BLANK, BLANK, after, size, [], c, foreground, background);
    assert [] + [c] == [c];
  }

  /** A space in the last cell leaves the screen blank, outside titles. */
  lemma LastSpaceClears(scr: Screen, size: Size, kind: MsgType, foreground: uintn, background: uintn)
    requires scr.line + 1 == size.rows && 0 < scr.col == size.cols - 1 && kind != TitleMsg && kind != SubtitleMsg
    ensures Put(scr, size, 32, kind, foreground, background) == Screen(map[], 0, 0)
  {
  }

  // ---------- The picture ----------

  /** The geometry of the frame buffer and the font, at scale `s`. */
  datatype Display = Display(width: nat, height: nat, bpp: nat, s: nat, font: seq<uintn>)
  {
    ghost predicate Valid()
    {
      0 < bpp && 0 < s && 6 * s <= width && 0 < height && (height - 1) / FONT_HEIGHT > 2 * s && |font| == 192
    }

    function MaxX(): nat
    {
      width / (FONT_WIDTH + 1)
    }

    function MaxY(): nat
      requires 0 < height
    {
      (height - 1) / FONT_HEIGHT
    }

    /** How many whole cells fit on a line, and how many lines are used. */
    function GridSize(): Size
      requires 0 < s && 0 < height && MaxY() > 0
    {
      Size((MaxY() - 1) / s, MaxX() / s)
    }

    function CellArea(line: nat, col: nat): Area
    {
      Area(width, bpp, s, 6 * RunStart(s, col), 12 * RunStart(s, line))
    }
  }

  /** The grid has as many columns as whole cells fit, and as many lines as fit with a character row to spare. */
  lemma GridFillsDisplay(d: Display)
    requires d.Valid()
    ensures var size := d.GridSize();
            && 6 * d.s * size.cols <= d.width < 6 * d.s * (size.cols + 1)
            && 12 * (d.s * size.rows + 1) < d.height <= 12 * (d.s * (size.rows + 1) + 1)
  {
    var size, x, y := d.GridSize(), d.MaxX(), d.MaxY() - 1;
    assert x == d.s * size.cols + x % d.s && y == d.s * size.rows + y % d.s;
    assert d.width == 6 * x + d.width % 6;
    assert d.height - 1 == 12 * (y + 1) + (d.height - 1) % 12;
    assert d.s * (size.cols + 1) == d.s * size.cols + d.s && d.s * (size.rows + 1) == d.s * size.rows + d.s;
  }

  /** Byte `i` of the picture: that of the glyph in its cell, black between and outside the cells. */
  ghost function PictureByte(d: Display, cells: map<(nat, nat), Cell>, i: nat): byte
    requires d.Valid()
  {
    var y, x := i / d.bpp / d.width, i / d.bpp % d.width;
    var key := (y / (12 * d.s), x / (6 * d.s));
    if key in cells && x % (6 * d.s) < 5 * d.s then
      var cell := cells[key];
      var glyph := (cell.code - 32) * 2;
      if GlyphBit(d.font[glyph], d.font[glyph + 1], d.s, y % (12 * d.s), x % (6 * d.s))
      then ColorByte(cell.foreground, i % d.bpp)
      else ColorByte(cell.background, i % d.bpp)
    else ColorByte(BLACK, i % d.bpp)
  }

  ghost predicate IsPicture(d: Display, cells: map<(nat, nat), Cell>, mem: seq<byte>)
    requires d.Valid()
  {
    forall i {:trigger PictureByte(d, cells, i)} :: 0 <= i < |mem| ==> mem[i] == PictureByte(d, cells, i)
  }

  lemma QuotientsAreNat(i: nat, bpp: nat, width: nat)
    requires 0 < bpp && 0 < width
    ensures 0 <= i / bpp / width && 0 <= i / bpp % width
  {
  }

  lemma IntervalIsQuotient(unit: nat, q: nat, v: nat)
    requires 0 < unit
    ensures 0 <= v - unit * q < unit <==> v / unit == q
    ensures v / unit == q ==> v % unit == v - unit * q
  {
    if 0 <= v - unit * q < unit {
      DivUnique(v, unit, q, v - unit * q);
    }
  }

  lemma UnitInterval(unit: nat, n: nat, s: nat, q: nat, v: nat)
    requires 0 < unit && unit == n * s
    ensures 0 <= v - n * RunStart(s, q) < unit <==> v / unit == q
    ensures v / unit == q ==> v % unit == v - n * RunStart(s, q)
  {
    RunStartValue(s, q);
    assert n * RunStart(s, q) == unit * q;
    IntervalIsQuotient(unit, q, v);
  }

  lemma PositionIsInCell(s: nat, cellHeight: nat, cellWidth: nat, line: nat, col: nat, y: nat, x: nat)
    requires 0 < s && cellHeight == 12 * s && cellWidth == 6 * s
    ensures var row, column := y - 12 * RunStart(s, line), x - 6 * RunStart(s, col);
            && (0 <= row < cellHeight && 0 <= column < 5 * s <==>
                y / cellHeight == line && x / cellWidth == col && x % cellWidth < 5 * s)
            && (0 <= row < cellHeight && 0 <= column < 5 * s ==> row == y % cellHeight && column == x % cellWidth)
  {
    UnitInterval(cellHeight, 12, s, line, y);
    UnitInterval(cellWidth, 6, s, col, x);
  }

  /** A byte lies in a cell's area exactly when dividing its position by the cell size says so. */
  lemma AreaIsCell(d: Display, line: nat, col: nat, i: nat)
    requires 0 < d.bpp && 0 < d.width && 0 < d.s
    ensures var y, x := i / d.bpp / d.width, i / d.bpp % d.width;
            var a := d.CellArea(line, col);
            && (a.Contains(i) <==> y / (12 * d.s) == line && x / (6 * d.s) == col && x % (6 * d.s) < 5 * d.s)
            && (a.Contains(i) ==> a.RowOf(i) == y % (12 * d.s) && a.ColOf(i) == x % (6 * d.s))
  {
    var y, x := i / d.bpp / d.width, i / d.bpp % d.width;
    QuotientsAreNat(i, d.bpp, d.width);
    PositionIsInCell(d.s, 12 * d.s, 6 * d.s, line, col, y, x);
  }

  /** Drawing a glyph in a cell of the picture gives the picture with that cell set. */
  lemma DrawnCellIsPicture(d: Display, cells: map<(nat, nat), Cell>, line: nat, col: nat, cell: Cell,
                           before: seq<byte>, after: seq<byte>)
    requires d.Valid() && IsPicture(d, cells, before)
    requires IsDrawn(d.CellArea(line, col), d.font[(cell.code - 32) * 2], d.font[(cell.code - 32) * 2 + 1],
                     cell.foreground, cell.background, before, after)
    ensures IsPicture(d, cells[(line, col) := cell], after)
  {
    var a := d.CellArea(line, col);
    var g0, g1 := d.font[(cell.code - 32) * 2], d.font[(cell.code - 32) * 2 + 1];
    forall i | 0 <= i < |after|
      ensures after[i] == PictureByte(d, cells[(line, col) := cell], i)
    {
      AreaIsCell(d, line, col, i);
      assert after[i] == DrawnByte(a, g0, g1, cell.foreground, cell.background, before, i);
      assert before[i] == PictureByte(d, cells, i);
    }
  }

  /** Unscaled rows and columns: within a unit of `n` font pixels, the quotient and rest of a position. */
  lemma PositionInUnit(n: nat, s: nat, q: nat, r: nat)
    requires 0 < s && r < n * s
    ensures (n * s * q + r) / (n * s) == q && (n * s * q + r) % (n * s) == r
  {
    DivUnique(n * s * q + r, n * s, q, r);
  }

  /**
   The color of the pixel in a row and column of a cell: that of the two font words of
   the cell's character, with one empty font column behind it; black when the cell is empty.
   */
  ghost function PixelColor(d: Display, cells: map<(nat, nat), Cell>, key: (nat, nat), row: nat, column: nat): uintn
    requires 0 < d.s && |d.font| == 192
  {
    if key in cells && column < 5 * d.s then
      var cell, code: nat := cells[key], cells[key].code;
      if FontPixel(d.font[2 * code - 64], d.font[2 * code - 63], row / d.s, column / d.s)
      then cell.foreground else cell.background
    else 0xFF00_0000
  }

  lemma PictureByteAt(d: Display, cells: map<(nat, nat), Cell>, i: nat, y: nat, x: nat, key: (nat, nat),
                      row: nat, column: nat, k: nat)
    requires d.Valid() && row < 12 * d.s && y == i / d.bpp / d.width && x == i / d.bpp % d.width && k == i % d.bpp
    requires key == (y / (12 * d.s), x / (6 * d.s)) && row == y % (12 * d.s) && column == x % (6 * d.s)
    ensures PictureByte(d, cells, i) == ColorByte(PixelColor(d, cells, key, row, column), k)
  {
    if key in cells {
      var code: nat := cells[key].code;
      GlyphBitIsFontPixel(d.font[2 * code - 64], d.font[2 * code - 63], d.s, row, column);
    }
  }

  /** Every byte of the picture: the lowest byte of a pixel's color comes first. */
  lemma PicturePixel(d: Display, cells: map<(nat, nat), Cell>, line: nat, col: nat, row: nat, column: nat, k: nat,
                     y: nat, x: nat, i: nat)
    requires d.Valid() && row < 12 * d.s && column < 6 * d.s && k < d.bpp
    requires y == 12 * d.s * line + row && x == 6 * d.s * col + column < d.width && i == (y * d.width + x) * d.bpp + k
    ensures PictureByte(d, cells, i) == Digit(PixelColor(d, cells, (line, col), row, column), k)
  {
    LocateFlat(d.width, d.bpp, y, x, k);
    PositionInUnit(12, d.s, line, row);
    PositionInUnit(6, d.s, col, column);
    PictureByteAt(d, cells, i, y, x, (line, col), row, column, k);
    ColorByteIsDigit(PixelColor(d, cells, (line, col), row, column), k);
  }
}
