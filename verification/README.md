# Verified model of the Mu-Tegra firmware's core algorithms

This project models six pieces of the Mu-Tegra UEFI firmware in Dafny and proves
what they are for. Each module follows one source file.

**Substring search** (`Memory.c`). `memmem` finds the first occurrence of a needle
with a Crochemore-Perrin two-way search and special cases for short needles. The
project proves that the result is the first occurrence for every input. On the way
it proves the critical factorization theorem about the numbers that the two
maximal-suffix loops compute, that none of the five shifts skips an occurrence, and
that the number of byte tests is linear. Pointers into the haystack are offsets; `ip`,
`ms`, `k` and `p` are 32-bit words with wrap-around, as on the ARM target.
Modules: `MachineWord`, `Words`, `MaximalSuffix`, `Shifts`, `TwoWay`,
`ShortNeedles`, `Memmem`.

**Frame-buffer console** (`FrameBufferSerialPortLib.c`). The pixels are a byte array
that pointer-walking loops write; the abstract screen is a grid of coloured
characters with a cursor. After any run of writes the bytes are exactly the picture
of the grid. This holds at every scale, for a display that is at least one cell wide and
whose height in unscaled characters is more than twice the scale. The cursor
record, kept in memory right behind the pixels, is shown to be out of reach of all
drawing.
Modules: `Pixels`, `Glyph`, `ScreenModel`, `Console`.

**Early-storage log** (`MsWheaEarlyStorageLib.c`). An append-only log of records with
a 16-bit checksum in a store addressed by 8-bit offsets. Header size, record size and
field positions are parameters, because their structures are not part of this model; the
sizes are even, and header and one record fit in the store. A history of the memory
after each byte written states what an interruption leaves behind.
Modules: `WheaFormat`, `WheaStore`.

**Square roots** (`MathLib.c`). The digit-by-digit integer roots are exact. For `sqrt_d`
the type `double` is idealised as the real numbers; the error that the loop leaves is
computed exactly from the first guess. Modules: `Isqrt`, `Sqrt`.

**Keyboard** (`TegraKeyboardTextIn.c`, `TegraKeyboard.c`, `TegraKeyboardController.c`).
Two ring buffers, the notification list, the producer, the readers and the
notification handler. What the device reports at each poll is a parameter; callbacks
are recorded in a ghost log; an entry's address is chosen by the caller.
Modules: `KeyQueue`, `KeyRegistration`, `KeyboardDriver`.

**SMBIOS string sets** (`SmBiosTableDxe.c`, `FrontPage.c`). The writer of a structure's
string set (section 6.1.3, "Text strings", of DSP0134) and its reader.
Module: `SmbiosStrings`.

`Arith`, `Bits` and `Wrappers` hold shared helpers. `dafny verify dfyconfig.toml` checks
everything.

## Where code and documentation differ

- `sqrt_d` is documented to give the square root of every positive argument, in seven
  iterations. It makes six, and for small arguments they are too few. Measured by the
  relative error of the squared result, they reach 2^-52, the accuracy of a `double`,
  for every argument from 0.0809 on and for none up to 0.0808 (`EnoughStepsThreshold`).
  At 0.01 the error is more than 10^-5 (`HundredthIsInaccurate`), and no accuracy,
  however low, is reached for all positive arguments (`SmallArgumentsAreInaccurate`).
  From 1 on the error is at most 10^-25. `AccurateIffEnoughSteps` has the exact condition
  for every accuracy from 10^-25 on.
- The raw store routines are documented to refuse over-length requests. Of the requests
  that are larger than the store, their 8-bit check lets those at low offsets through
  (`RefusedIsBoundsCheck` says exactly which). The writers then go past the end of the
  store: all their writes of a given size stay inside it if and only if that size is not
  larger than the store (`RawWritesStayInsideIffNotLarger`, `WritesStayInsideIffNotLarger`).
- `LogSmbiosData` is documented to take a null string pack. The size is computed for an
  empty one, but the append loop reads through the null pointer. It stays inside the
  record exactly when it finds no string there, or one empty one (`NullPackFits`); then
  the record is that of the empty pack.
- The SMBIOS reader is documented to find the string with a given number. An empty
  string inside a set looks like the end of the set to it (`EmptyStringHidesNext`);
  `Readable` says which strings are found, and `ReadsBackIffNoEmptyString` when all are.

## What is not documented

- When a newline on the last line clears the console, the newline is handled again, so
  that text goes on in the second line. `LineAfterClearing` says for every character
  where text goes on, and `NewlineOnLastLine` shows one such newline.
- Let `m` be the height of the display in unscaled characters, `(height - 1) / 12`. When
  `m` is at least the scale and at most twice the scale, handling a newline never ends, and
  otherwise it always does (`NewlineEndsExactlyWhen`).

## Model

| member | source | states |
|---|---|---|
| `Memmem.Memmem` | Silicon/Nvidia/Tegra30Pkg/Applications/UEFILoader/Memory.c:174-201 | For every haystack and needle the result is the least offset at which the needle occurs, and none exactly when it occurs nowhere; all paths (empty, too long, first-byte filter, one to four bytes, two-way) |
| `Memmem.FirstByteFilters` | Silicon/Nvidia/Tegra30Pkg/Applications/UEFILoader/Memory.c:186-192 | Nothing before the first place where the needle's first byte stands can be an occurrence |
| `Words.CriticalFactorization` | Silicon/Nvidia/Tegra30Pkg/Applications/UEFILoader/Memory.c:70-122 | Critical factorization theorem: at the later of the two maximal suffixes, every centred repetition is longer than the left part and is a period of the whole needle |
| `Words.LocalPeriodIsSmallestPeriod` | Silicon/Nvidia/Tegra30Pkg/Applications/UEFILoader/Memory.c:70-122 | The smallest repetition centred at that cut is the smallest period of the needle, and the cut lies before it |
| `MaximalSuffix.ComputeMaximalSuffix` | Silicon/Nvidia/Tegra30Pkg/Applications/UEFILoader/Memory.c:70-94 | A pass ends with the start of the greatest suffix under its byte order and with that suffix's smallest period, in at least one step per further byte and fewer than twice the needle's length; also for the pass with the opposite order (lines 96-118) |
| `MaximalSuffix.LaterStart` | Silicon/Nvidia/Tegra30Pkg/Applications/UEFILoader/Memory.c:74-92 | Every start after the candidate has already lost to it or still agrees with it up to the letter looked at |
| `MaximalSuffix.SmallerLetter` | Silicon/Nvidia/Tegra30Pkg/Applications/UEFILoader/Memory.c:83-87 | A smaller letter than the period predicts makes all letters seen so far the new first period |
| `MaximalSuffix.LargerLetter` | Silicon/Nvidia/Tegra30Pkg/Applications/UEFILoader/Memory.c:88-91 | A larger letter than the period predicts makes the last repetition beat all earlier starts |
| `TwoWay.WithBitSetsOnlyItsBit` | Silicon/Nvidia/Tegra30Pkg/Applications/UEFILoader/Memory.c:14-16 | Setting one bit of a word of the byte set changes the membership of that byte only |
| `TwoWay.FillTables` | Silicon/Nvidia/Tegra30Pkg/Applications/UEFILoader/Memory.c:63-68 | The byte set holds exactly the needle's bytes, and the shift of each is one more than its last index, so no uninitialised shift is ever read |
| `TwoWay.Prepare` | Silicon/Nvidia/Tegra30Pkg/Applications/UEFILoader/Memory.c:70-131 | The cut is critical, no repetition at it is shorter than the shift, and a non-zero remembered length means that the needle has that period; `ms + 1` wraps only from -1 to 0 |
| `Shifts.PeriodicNeedle` | Silicon/Nvidia/Tegra30Pkg/Applications/UEFILoader/Memory.c:124-130 | When the left part repeats one suffix period later, that period is the smallest one of the whole needle |
| `Shifts.NonPeriodicNeedle` | Silicon/Nvidia/Tegra30Pkg/Applications/UEFILoader/Memory.c:124-128 | Otherwise every repetition at the cut is longer than both parts of the needle, which justifies the larger shift |
| `Shifts.AbsentByteSkips` | Silicon/Nvidia/Tegra30Pkg/Applications/UEFILoader/Memory.c:150-154 | A last byte that is not in the needle: no occurrence is skipped by shifting past the window |
| `Shifts.BadByteSkips` | Silicon/Nvidia/Tegra30Pkg/Applications/UEFILoader/Memory.c:140-147 | A last byte that is last in the needle `k` before its end: no occurrence is skipped by `k` |
| `Shifts.RememberedPrefixSkips` | Silicon/Nvidia/Tegra30Pkg/Applications/UEFILoader/Memory.c:143-144 | With a remembered prefix and a wrong last byte, no occurrence is skipped by shifting `l - p` |
| `Shifts.LastIndexIsLate` | Silicon/Nvidia/Tegra30Pkg/Applications/UEFILoader/Memory.c:141-144 | With memory held, the last-byte shift is always below the period, so the replacement applies |
| `Shifts.RightMismatchSkips` | Silicon/Nvidia/Tegra30Pkg/Applications/UEFILoader/Memory.c:157-163 | A mismatch at `k` in the right half: no occurrence is skipped by `k - ms` |
| `Shifts.LeftMismatchSkips` | Silicon/Nvidia/Tegra30Pkg/Applications/UEFILoader/Memory.c:165-170 | A mismatch in the left half only: no occurrence is skipped by `p`, for both kinds of needle |
| `Shifts.ShiftKeepsPrefix` | Silicon/Nvidia/Tegra30Pkg/Applications/UEFILoader/Memory.c:169-170 | After such a shift the first `mem0` bytes of the new window are known to match |
| `TwoWay.LastByteShift` | Silicon/Nvidia/Tegra30Pkg/Applications/UEFILoader/Memory.c:139-154 | The shift chosen from the last byte skips no occurrence and is paid for by its length |
| `TwoWay.CompareRight` | Silicon/Nvidia/Tegra30Pkg/Applications/UEFILoader/Memory.c:156-158 | The right-half loop stops at the first mismatch, with every read inside the window, and its tests are counted exactly |
| `TwoWay.CompareLeft` | Silicon/Nvidia/Tegra30Pkg/Applications/UEFILoader/Memory.c:164-166 | The left-half loop runs backwards to the remembered prefix or to a mismatch, and its tests are counted exactly |
| `TwoWay.HalvesShift` | Silicon/Nvidia/Tegra30Pkg/Applications/UEFILoader/Memory.c:156-170 | Comparing both halves either finds an occurrence or gives a shift that skips none, and what is remembered afterwards is true |
| `TwoWay.Search` | Silicon/Nvidia/Tegra30Pkg/Applications/UEFILoader/Memory.c:133-171 | The search loop finds the first occurrence, `h` never passes `z`, and it makes at least one test per window and at most four per byte of the haystack |
| `TwoWay.TwowayMemmem` | Silicon/Nvidia/Tegra30Pkg/Applications/UEFILoader/Memory.c:58-172 | The whole two-way search: first occurrence, fewer than 4l preprocessing steps and at most four tests per haystack byte |
| `ShortNeedles.OccursIffSameWord` | Silicon/Nvidia/Tegra30Pkg/Applications/UEFILoader/Memory.c:21-25 | A needle occurs exactly where the word of the haystack's bytes equals its own; likewise lines 31-36 and 42-47 |
| `ShortNeedles.TwobyteMemmem` | Silicon/Nvidia/Tegra30Pkg/Applications/UEFILoader/Memory.c:18-26 | The rolling 16-bit word finds the first occurrence of a two-byte needle |
| `ShortNeedles.Roll2` | Silicon/Nvidia/Tegra30Pkg/Applications/UEFILoader/Memory.c:22 | One rolling step: the 16-bit word shifted and or-ed with the next byte is the word of the next two bytes |
| `ShortNeedles.ThreebyteMemmem` | Silicon/Nvidia/Tegra30Pkg/Applications/UEFILoader/Memory.c:28-37 | The rolling 32-bit word with a clear low byte finds the first occurrence of a three-byte needle |
| `ShortNeedles.Roll3` | Silicon/Nvidia/Tegra30Pkg/Applications/UEFILoader/Memory.c:33 | One rolling step: the 32-bit word or-ed with the next byte and shifted is the word of the next three bytes |
| `ShortNeedles.FourbyteMemmem` | Silicon/Nvidia/Tegra30Pkg/Applications/UEFILoader/Memory.c:39-48 | The rolling 32-bit word finds the first occurrence of a four-byte needle |
| `ShortNeedles.Roll4` | Silicon/Nvidia/Tegra30Pkg/Applications/UEFILoader/Memory.c:44 | One rolling step: the 32-bit word shifted and or-ed with the next byte is the word of the next four bytes |
| `Bits.OrField` | Silicon/Nvidia/Tegra30Pkg/Applications/UEFILoader/Memory.c:21-22 | Below a number shifted left, `|` writes a field of that many bits, as the packed words need it |
| `Bits.OrBits` | Silicon/Nvidia/Tegra30Pkg/Applications/UEFILoader/Memory.c:21-22 | The `|` of the models is the bitwise one |
| `Bits.ShrIsQuotient` | Silicon/Nvidia/NvidiaPkg/Library/MathLib/MathLib.c:199-204 | The `>>` of the models divides by a power of two |
| `MachineWord.WordArithmeticIsModular` | Silicon/Nvidia/Tegra30Pkg/Applications/UEFILoader/Memory.c:70-93 | The word addition and subtraction used for `ip` and `ms` are exact modulo the word size |
| `Pixels.ColorByteIsDigit` | Silicon/Nvidia/NvidiaPkg/Library/FrameBufferSerialPortLib/FrameBufferSerialPortLib.c:175-180 | The bytes of a pixel are the digits of its color to the base 256, the lowest one first |
| `Pixels.ColorOfBytes` | Silicon/Nvidia/NvidiaPkg/Library/FrameBufferSerialPortLib/FrameBufferSerialPortLib.c:175-180 | The bytes of a four-byte pixel make up its color again |
| `Glyph.PutPixel` | Silicon/Nvidia/NvidiaPkg/Library/FrameBufferSerialPortLib/FrameBufferSerialPortLib.c:175-180 | One pixel: the low bytes of the color in order, nothing else, and the pointer advanced by one pixel |
| `Glyph.BackgroundRow` | Silicon/Nvidia/NvidiaPkg/Library/FrameBufferSerialPortLib/FrameBufferSerialPortLib.c:173-183 | One pixel row of background and the move to the next screen line |
| `Glyph.BackgroundHalf` | Silicon/Nvidia/NvidiaPkg/Library/FrameBufferSerialPortLib/FrameBufferSerialPortLib.c:171-185 | Six font rows of background at any scale |
| `Glyph.BitSetIsDigit` | Silicon/Nvidia/NvidiaPkg/Library/FrameBufferSerialPortLib/FrameBufferSerialPortLib.c:209-224 | The bit looked at for a font pixel is the binary digit of that weight |
| `Glyph.GlyphBitIsFontPixel` | Silicon/Nvidia/NvidiaPkg/Library/FrameBufferSerialPortLib/FrameBufferSerialPortLib.c:203-228 | At scale s each font pixel, the binary digit 5*row + col of its half-glyph word, is repeated s times in each direction |
| `Glyph.GlyphRowShows` | Silicon/Nvidia/NvidiaPkg/Library/FrameBufferSerialPortLib/FrameBufferSerialPortLib.c:203-224 | Which bits of which glyph word a pixel row shows at scale `s` |
| `Glyph.GlyphRow` | Silicon/Nvidia/NvidiaPkg/Library/FrameBufferSerialPortLib/FrameBufferSerialPortLib.c:206-227 | One pixel row of foreground: set bits painted, clear bits left alone, the shifted word handed on |
| `Glyph.GlyphHalf` | Silicon/Nvidia/NvidiaPkg/Library/FrameBufferSerialPortLib/FrameBufferSerialPortLib.c:203-228 | Half of the glyph from one word, re-reading the row's bits for each repeated line |
| `Glyph.DrawGlyph` | Silicon/Nvidia/NvidiaPkg/Library/FrameBufferSerialPortLib/FrameBufferSerialPortLib.c:160-256 | Inside the 5s by 12s cell every pixel is foreground exactly when bit 5*((row/s) mod 6) + col/s of its half-glyph word is set and background otherwise; no byte outside the cell changes |
| `Glyph.DrawnPixel` | Silicon/Nvidia/NvidiaPkg/Library/FrameBufferSerialPortLib/FrameBufferSerialPortLib.c:160-256 | Where each pixel of a drawn cell lies, and each of its bytes in terms of the binary digits of the glyph words and the digits of the colors |
| `Glyph.ResetFb` | Silicon/Nvidia/NvidiaPkg/Library/FrameBufferSerialPortLib/FrameBufferSerialPortLib.c:60-78 | Every pixel gets the clearing color, and nothing behind the pixels changes |
| `ScreenModel.PutStaysInGrid` | Silicon/Nvidia/NvidiaPkg/Library/FrameBufferSerialPortLib/FrameBufferSerialPortLib.c:131-151 | After any character the cursor and all shown cells are inside the grid |
| `ScreenModel.ClearingLosesAllCells` | Silicon/Nvidia/NvidiaPkg/Library/FrameBufferSerialPortLib/FrameBufferSerialPortLib.c:141-147 | A character that moves on from the last line leaves at most itself, at the top left; every other one leaves all cells but the cursor's |
| `ScreenModel.LineAfterClearing` | Silicon/Nvidia/NvidiaPkg/Library/FrameBufferSerialPortLib/FrameBufferSerialPortLib.c:141-151 | After a clearing character text goes on in the first line if and only if it is no newline and either there is more than one column or it is a space skipped on the blank screen; otherwise in the second |
| `ScreenModel.NewlineOnLastLine` | Silicon/Nvidia/NvidiaPkg/Library/FrameBufferSerialPortLib/FrameBufferSerialPortLib.c:138-151 | One newline on the last of three lines: the next letter stands in the second line |
| `ScreenModel.WordIsShown` | Silicon/Nvidia/NvidiaPkg/Library/FrameBufferSerialPortLib/FrameBufferSerialPortLib.c:113-131 | A text that fits in the rest of the line appears in order from the cursor on and changes no other cell |
| `ScreenModel.CarriageReturnThenWord` | Silicon/Nvidia/NvidiaPkg/Library/FrameBufferSerialPortLib/FrameBufferSerialPortLib.c:104-106 | After a carriage return, text is shown in the same line from its first column on, and nothing else changes |
| `ScreenModel.NewlineThenWord` | Silicon/Nvidia/NvidiaPkg/Library/FrameBufferSerialPortLib/FrameBufferSerialPortLib.c:137-157 | After a newline above the last line, text is shown in the next line from its first column on, and nothing else changes |
| `ScreenModel.LastNewlineThenWord` | Silicon/Nvidia/NvidiaPkg/Library/FrameBufferSerialPortLib/FrameBufferSerialPortLib.c:137-151 | After a newline in the last line, text is shown in the second line of a blank screen |
| `ScreenModel.LetterReturnLetter` | Silicon/Nvidia/NvidiaPkg/Library/FrameBufferSerialPortLib/FrameBufferSerialPortLib.c:104-106 | "A", carriage return, "B" on the blank screen shows "B" alone |
| `ScreenModel.IgnoredTextChangesNothing` | Silicon/Nvidia/NvidiaPkg/Library/FrameBufferSerialPortLib/FrameBufferSerialPortLib.c:97-115 | Other control codes, codes above 127, and spaces in the first column outside titles change nothing |
| `ScreenModel.TextIsLaidOut` | Silicon/Nvidia/NvidiaPkg/Library/FrameBufferSerialPortLib/FrameBufferSerialPortLib.c:113-157 | Visible text that leaves room on the screen stands at consecutive positions over as many lines as it takes, and nothing else changes |
| `ScreenModel.LastCellThenTop` | Silicon/Nvidia/NvidiaPkg/Library/FrameBufferSerialPortLib/FrameBufferSerialPortLib.c:131-151 | A visible character in the last cell clears the screen and is shown alone at the top left |
| `ScreenModel.LastSpaceClears` | Silicon/Nvidia/NvidiaPkg/Library/FrameBufferSerialPortLib/FrameBufferSerialPortLib.c:113-151 | A space in the last cell leaves the screen blank, outside titles |
| `ScreenModel.GridFillsDisplay` | Silicon/Nvidia/NvidiaPkg/Library/FrameBufferSerialPortLib/FrameBufferSerialPortLib.c:80-84 | The grid has as many columns as whole cells fit, and as many lines as fit with a character row to spare |
| `ScreenModel.DrawnCellIsPicture` | Silicon/Nvidia/NvidiaPkg/Library/FrameBufferSerialPortLib/FrameBufferSerialPortLib.c:122-127 | Drawing a glyph in a cell of a picture gives the picture of the grid with that cell set |
| `ScreenModel.PicturePixel` | Silicon/Nvidia/NvidiaPkg/Library/FrameBufferSerialPortLib/FrameBufferSerialPortLib.c:122-127 | Every byte of the picture: a cell shows the two font words of its character in its colors with one empty font column behind it, and all else is black |
| `Console.CellOffset` | Silicon/Nvidia/NvidiaPkg/Library/FrameBufferSerialPortLib/FrameBufferSerialPortLib.c:122-124 | The offset the library computes is that of the cell's upper left pixel |
| `Console.CellFits` | Silicon/Nvidia/NvidiaPkg/Library/FrameBufferSerialPortLib/FrameBufferSerialPortLib.c:122-132 | Every cell the cursor can be in lies inside the frame buffer |
| `Console.LineLimit` | Silicon/Nvidia/NvidiaPkg/Library/FrameBufferSerialPortLib/FrameBufferSerialPortLib.c:142-144 | The comparison with the reduced height is the limit on the number of text lines |
| `Console.NewlineEndsExactlyWhen` | Silicon/Nvidia/NvidiaPkg/Library/FrameBufferSerialPortLib/FrameBufferSerialPortLib.c:141-151 | A newline is handled in finitely many passes, and then in at most two, unless the height of the display in unscaled characters is at least the scale and at most twice the scale |
| `Console.FrameBufferConsole.constructor` | Silicon/Nvidia/NvidiaPkg/Library/FrameBufferSerialPortLib/FrameBufferSerialPortLib.c:40-58 | Initialization sets limits and colors; on a black display with a zeroed cursor record the console shows the blank screen |
| `Console.FrameBufferConsole.FbConReset` | Silicon/Nvidia/NvidiaPkg/Library/FrameBufferSerialPortLib/FrameBufferSerialPortLib.c:80-89 | The cursor limits and the initial colors |
| `Console.FrameBufferConsole.DrawAtCursor` | Silicon/Nvidia/NvidiaPkg/Library/FrameBufferSerialPortLib/FrameBufferSerialPortLib.c:122-127 | Painting at the cursor sets that cell of the picture; bytes behind the pixels stay |
| `Console.FrameBufferConsole.ClearScreen` | Silicon/Nvidia/NvidiaPkg/Library/FrameBufferSerialPortLib/FrameBufferSerialPortLib.c:144-147 | Clearing gives the picture of the blank screen with the cursor at the top |
| `Console.FrameBufferConsole.AdvanceLine` | Silicon/Nvidia/NvidiaPkg/Library/FrameBufferSerialPortLib/FrameBufferSerialPortLib.c:141-157 | On any display, the next line, or black pixels, the first line and the jump back |
| `Console.FrameBufferConsole.NewlinePasses` | Silicon/Nvidia/NvidiaPkg/Library/FrameBufferSerialPortLib/FrameBufferSerialPortLib.c:95-157 | On any display, whether a newline is still being handled after a number of passes |
| `Console.FrameBufferConsole.NextLine` | Silicon/Nvidia/NvidiaPkg/Library/FrameBufferSerialPortLib/FrameBufferSerialPortLib.c:141-157 | The line move, or the clearing when there is no further line |
| `Console.FrameBufferConsole.PaintGlyph` | Silicon/Nvidia/NvidiaPkg/Library/FrameBufferSerialPortLib/FrameBufferSerialPortLib.c:113-151 | A printable character is shown at the cursor, which moves on by the rules of the grid |
| `Console.FrameBufferConsole.Paint` | Silicon/Nvidia/NvidiaPkg/Library/FrameBufferSerialPortLib/FrameBufferSerialPortLib.c:95-157 | From `paint` to a return or to the jump back: the rules of the grid, or a blank screen on which the same character gives what the rules say |
| `Console.FrameBufferConsole.PutCharWithFactor` | Silicon/Nvidia/NvidiaPkg/Library/FrameBufferSerialPortLib/FrameBufferSerialPortLib.c:91-158 | One character at any scale: pixels remain the picture of the grid updated by its rules, `goto paint` is taken at most once, and the cursor record behind the pixels is never written by drawing |
| `Console.FrameBufferConsole.SerialPortWrite` | Silicon/Nvidia/NvidiaPkg/Library/FrameBufferSerialPortLib/FrameBufferSerialPortLib.c:291-308 | A write shows its text by the rules of the grid in the current color |
| `Console.FrameBufferConsole.SerialPortWriteCritical` | Silicon/Nvidia/NvidiaPkg/Library/FrameBufferSerialPortLib/FrameBufferSerialPortLib.c:310-332 | The same in yellow, and the color is restored |
| `Console.WriteIsShown` | Silicon/Nvidia/NvidiaPkg/Library/FrameBufferSerialPortLib/FrameBufferSerialPortLib.c:291-332 | A further write that fits is shown in white, a critical one in yellow, on black, whatever was written before |
| `Console.RunWrites` | Silicon/Nvidia/NvidiaPkg/Library/FrameBufferSerialPortLib/FrameBufferSerialPortLib.c:291-332 | From a cleared screen, after any sequence of normal and critical writes the pixels are the picture of the grid that the rules give |
| `Console.RunOnDisplay` | Silicon/Nvidia/NvidiaPkg/Library/FrameBufferSerialPortLib/FrameBufferSerialPortLib.c:40-58 | On any display memory, from initialization and a cleared screen on, any sequence of writes leaves the picture of the grid, and nothing behind the pixels changes |
| `WheaStore.RefusedIsBoundsCheck` | Silicon/Nvidia/NvidiaPkg/Library/MsWheaEarlyStorageLib/MsWheaEarlyStorageLib.c:53-60 | For a single request the 8-bit check agrees with the bounds check exactly when the request is not larger than the store or its offset is above the wrapped difference; for all offsets of a size, exactly when the size is not larger than the store |
| `WheaStore.RawWritesStayInsideIffNotLarger` | Silicon/Nvidia/NvidiaPkg/Library/MsWheaEarlyStorageLib/MsWheaEarlyStorageLib.c:94-125 | No write of the raw writer leaves the store, if and only if the request is not larger than the store |
| `WheaStore.WritesStayInsideIffNotLarger` | Silicon/Nvidia/NvidiaPkg/Library/MsWheaEarlyStorageLib/MsWheaEarlyStorageLib.c:229-248 | The same for the writer relative to the store, including the bytes in front of it |
| `WheaStore.EarlyStorage.RawRead` | Silicon/Nvidia/NvidiaPkg/Library/MsWheaEarlyStorageLib/MsWheaEarlyStorageLib.c:40-80 | For every request: refused by the 8-bit check, or the bytes at the 8-bit indices; up to the size of the store this is the bounds check and a slice |
| `WheaStore.EarlyStorage.RawWrite` | Silicon/Nvidia/NvidiaPkg/Library/MsWheaEarlyStorageLib/MsWheaEarlyStorageLib.c:94-125 | For every request: refused without a change, or the buffer stored at the 8-bit indices, passing through the memories with each prefix of it in place |
| `WheaStore.EarlyStorage.Read` | Silicon/Nvidia/NvidiaPkg/Library/MsWheaEarlyStorageLib/MsWheaEarlyStorageLib.c:195-214 | The same relative to the store, for every request |
| `WheaStore.EarlyStorage.Write` | Silicon/Nvidia/NvidiaPkg/Library/MsWheaEarlyStorageLib/MsWheaEarlyStorageLib.c:229-248 | The same relative to the store, for every request |
| `WheaStore.EarlyStorage.MaxDataCountIsExact` | Silicon/Nvidia/NvidiaPkg/Library/MsWheaEarlyStorageLib/MsWheaEarlyStorageLib.c:173-180 | The 8-bit capacity subtractions do not wrap; likewise lines 289-296 |
| `WheaStore.EarlyStorage.FindSlot` | Silicon/Nvidia/NvidiaPkg/Library/MsWheaEarlyStorageLib/MsWheaEarlyStorageLib.c:312-330 | A record is placed at the end of the active range exactly when it fits, for any header |
| `WheaStore.NewHeaderSumsToZero` | Silicon/Nvidia/NvidiaPkg/Library/MsWheaEarlyStorageLib/MsWheaEarlyStorageLib.c:372-388 | The computed word makes header and data sum to zero modulo 2 to the 16th |
| `WheaStore.ChecksumDetectsChange` | Silicon/Nvidia/NvidiaPkg/Library/MsWheaEarlyStorageLib/MsWheaEarlyStorageLib.c:372-388 | The checksum detects every change of a single byte of the header or the active range that leaves the range itself |
| `WheaStore.EarlyStorage.ReadWord` | Silicon/Nvidia/NvidiaPkg/Library/MsWheaEarlyStorageLib/MsWheaEarlyStorageLib.c:378-382 | The word at an index of the data region, or the failed read |
| `WheaStore.EarlyStorage.AddWord` | Silicon/Nvidia/NvidiaPkg/Library/MsWheaEarlyStorageLib/MsWheaEarlyStorageLib.c:378-386 | One pass of the summing loop: the running sum of one more word, or the failed read |
| `WheaStore.EarlyStorage.SumData` | Silicon/Nvidia/NvidiaPkg/Library/MsWheaEarlyStorageLib/MsWheaEarlyStorageLib.c:378-386 | The loop sums the words of the active range, or fails when that leaves the store |
| `WheaStore.EarlyStorage.CalculateChecksum16` | Silicon/Nvidia/NvidiaPkg/Library/MsWheaEarlyStorageLib/MsWheaEarlyStorageLib.c:346-392 | All outcomes of the checksum routine, what it puts out in each of them, and that it leaves the header as it was |
| `WheaStore.EarlyStorage.WriteRecord` | Silicon/Nvidia/NvidiaPkg/Library/MsWheaEarlyStorageLib/MsWheaEarlyStorageLib.c:421-446 | The record's bytes go behind the active range and leave the log as it was, at every single byte |
| `WheaStore.EarlyStorage.ExtendedHeader` | Silicon/Nvidia/NvidiaPkg/Library/MsWheaEarlyStorageLib/MsWheaEarlyStorageLib.c:458-469 | The new header differs in range and checksum only, and the checksum fits; an odd range is refused |
| `WheaStore.EarlyStorage.RewriteHeader` | Silicon/Nvidia/NvidiaPkg/Library/MsWheaEarlyStorageLib/MsWheaEarlyStorageLib.c:448-486 | The header on the store is replaced by the extended one byte by byte, or left as it is when the range is odd |
| `WheaStore.EarlyStorage.AddRecordV0Internal` | Silicon/Nvidia/NvidiaPkg/Library/MsWheaEarlyStorageLib/MsWheaEarlyStorageLib.c:404-500 | For any header: a record that does not fit changes no byte; behind an odd range it is written but not accepted; otherwise the active data grows by its bytes, the checksum is valid and everything else is untouched; every memory on the way is known |
| `WheaStore.AdditionToLog` | Silicon/Nvidia/NvidiaPkg/Library/MsWheaEarlyStorageLib/MsWheaEarlyStorageLib.c:404-500 | In a well-formed log an addition adds exactly one record, or is refused for want of room and changes nothing |
| `WheaStore.InterruptedAdditionKeepsLog` | Silicon/Nvidia/NvidiaPkg/Library/MsWheaEarlyStorageLib/MsWheaEarlyStorageLib.c:421-475 | An addition interrupted at any byte before the header rewrite leaves the same active range, the same records and the same checksum validity |
| `WheaStore.RecordsAtEveryByte` | Silicon/Nvidia/NvidiaPkg/Library/MsWheaEarlyStorageLib/MsWheaEarlyStorageLib.c:421-475 | After each byte of an accepted addition, header bytes included, the store decodes to the old records, and from the first byte of the new range on to the old records and the new one |
| `WheaStore.AdditionHoldsPrefixes` | Silicon/Nvidia/NvidiaPkg/Library/MsWheaEarlyStorageLib/MsWheaEarlyStorageLib.c:404-500 | An addition keeps up that at every byte written the store holds the first so many entries |
| `WheaStore.AddRecords` | Silicon/Nvidia/NvidiaPkg/Library/MsWheaEarlyStorageLib/MsWheaEarlyStorageLib.c:404-500 | Over any run of additions the store decodes to the old records and the accepted ones in order; refusals are for want of room only; interrupted at any byte written, it decodes to the old records and the first so many accepted ones |
| `WheaStore.RecordFromEmpty` | Silicon/Nvidia/NvidiaPkg/Library/MsWheaEarlyStorageLib/MsWheaEarlyStorageLib.c:404-500 | From an empty log on, the store holds exactly the accepted records, which are as many as fit, and at every byte written the first so many of them |
| `WheaFormat.SplitOfConcat` | Silicon/Nvidia/NvidiaPkg/Library/MsWheaEarlyStorageLib/MsWheaEarlyStorageLib.c:430-458 | Appending one record to whole records appends it to the decoded list |
| `WheaFormat.SizeOfSplit` | Silicon/Nvidia/NvidiaPkg/Library/MsWheaEarlyStorageLib/MsWheaEarlyStorageLib.c:430-458 | The decoded records account for every byte of the active range |
| `WheaFormat.RangeOfUpdatedHeader` | Silicon/Nvidia/NvidiaPkg/Library/MsWheaEarlyStorageLib/MsWheaEarlyStorageLib.c:458-469 | Writing the checksum does not disturb the active range, nor the range wrap |
| `Isqrt.Sqrt32` | Silicon/Nvidia/NvidiaPkg/Library/MathLib/MathLib.c:269-296 | The exact floor of the square root for every 32-bit argument |
| `Isqrt.Sqrt64` | Silicon/Nvidia/NvidiaPkg/Library/MathLib/MathLib.c:305-332 | The exact floor of the square root for every 64-bit argument |
| `Isqrt.DigitStep` | Silicon/Nvidia/NvidiaPkg/Library/MathLib/MathLib.c:284-293 | One pass decides one binary digit of the root, and no intermediate value overflows the word |
| `Isqrt.DigitByDigit` | Silicon/Nvidia/NvidiaPkg/Library/MathLib/MathLib.c:275-295 | Both loops end, and the result is the floor of the root |
| `Isqrt.FloorSqrtIsUnique` | Silicon/Nvidia/NvidiaPkg/Library/MathLib/MathLib.c:269-296 | The specification leaves only one result |
| `Sqrt.Smear` | Silicon/Nvidia/NvidiaPkg/Library/MathLib/MathLib.c:199-204 | Each or-with-shift doubles the number of ones at the top of the word |
| `Sqrt.Hibit` | Silicon/Nvidia/NvidiaPkg/Library/MathLib/MathLib.c:194-206 | The highest bit of any 64-bit word, alone; 0 for 0 |
| `Sqrt.Bsr32` | Silicon/Nvidia/NvidiaPkg/Library/MathLib/MathLib.c:176-190 | The position of the highest bit counted from one; 0 for 0 |
| `Sqrt.GuessFromWord` | Silicon/Nvidia/NvidiaPkg/Library/MathLib/MathLib.c:230-245 | The first guess squared is at most the integral part and more than a quarter of its successor |
| `Sqrt.HeronStep` | Silicon/Nvidia/NvidiaPkg/Library/MathLib/MathLib.c:255-256 | One step turns a relative error e into exactly e*e / (4 + 4e) |
| `Sqrt.Heron` | Silicon/Nvidia/NvidiaPkg/Library/MathLib/MathLib.c:249-259 | At most six steps leave exactly the error of six steps, also when the loop ends early |
| `Sqrt.SqrtD` | Silicon/Nvidia/NvidiaPkg/Library/MathLib/MathLib.c:215-260 | For every positive argument the squared result is known exactly from the first guess; below 2 to the 32nd, where the conversion is defined, its accuracy is known exactly from the argument; other arguments are returned |
| `Sqrt.AccurateIffSmallError` | Silicon/Nvidia/NvidiaPkg/Library/MathLib/MathLib.c:246-260 | Whatever the first guess and the accuracy asked for, the result is accurate if and only if the error of six steps is small enough |
| `Sqrt.AccurateIffEnoughSteps` | Silicon/Nvidia/NvidiaPkg/Library/MathLib/MathLib.c:215-260 | For every accuracy from 10^-25 on: the squared result exceeds the argument by at most that part of it, and never falls below, if and only if the argument is at least 1 or the error of the guess 1 has shrunk to it in six steps |
| `Sqrt.EnoughStepsUpwards` | Silicon/Nvidia/NvidiaPkg/Library/MathLib/MathLib.c:215-260 | What is enough for an argument is enough for every larger one, so that the inaccurate arguments are those below one threshold |
| `Sqrt.EnoughStepsThreshold` | Silicon/Nvidia/NvidiaPkg/Library/MathLib/MathLib.c:215-260 | At the accuracy 2^-52 of a double, six steps serve every argument from 0.0809 on and none up to 0.0808 |
| `Sqrt.FinestThreshold` | Silicon/Nvidia/NvidiaPkg/Library/MathLib/MathLib.c:215-260 | At the accuracy 10^-25, six steps serve every argument from 0.18537 on, in particular from 1 on, and none up to 0.18536 |
| `Sqrt.HundredthIsInaccurate` | Silicon/Nvidia/NvidiaPkg/Library/MathLib/MathLib.c:215-260 | For the argument 0.01 the squared result is off by more than a part of 10^-5 |
| `Sqrt.SmallArgumentsAreInaccurate` | Silicon/Nvidia/NvidiaPkg/Library/MathLib/MathLib.c:215-260 | However low the accuracy asked for, six steps are too few for all small enough arguments |
| `KeyQueue.EfiKeyQueue.constructor` | Silicon/Nvidia/NvidiaPkg/Drivers/TegraKeyboardDxe/TegraKeyboard.c:212-213 | A zeroed queue is empty |
| `KeyQueue.EfiKeyQueue.IsEmpty` | Silicon/Nvidia/NvidiaPkg/Drivers/TegraKeyboardDxe/TegraKeyboardTextIn.c:25-29 | Equal indices mean that no key waits |
| `KeyQueue.EfiKeyQueue.PopHead` | Silicon/Nvidia/NvidiaPkg/Drivers/TegraKeyboardDxe/TegraKeyboardTextIn.c:40-58 | Removes and gives the oldest waiting key, or reports that there is none |
| `KeyQueue.EfiKeyQueue.PushTail` | Silicon/Nvidia/NvidiaPkg/Drivers/TegraKeyboardDxe/TegraKeyboardTextIn.c:66-80 | Appends a key, dropping the oldest only when 255 keys wait |
| `KeyQueue.EfiKeyQueue.Clear` | Silicon/Nvidia/NvidiaPkg/Drivers/TegraKeyboardDxe/TegraKeyboardController.c:100-103 | Resetting the indices empties the queue |
| `KeyQueue.PushedAllIsNewest` | Silicon/Nvidia/NvidiaPkg/Drivers/TegraKeyboardDxe/TegraKeyboardTextIn.c:66-80 | A run of pushes leaves exactly the newest 255 keys in order |
| `KeyQueue.RunConservesKeys` | Silicon/Nvidia/NvidiaPkg/Drivers/TegraKeyboardDxe/TegraKeyboardTextIn.c:40-80 | Over any run of pushes, pops and resets every pushed key has left or waits, in the order pushed, and at most 255 wait |
| `KeyQueue.LosesOneKeyPerFullPush` | Silicon/Nvidia/NvidiaPkg/Drivers/TegraKeyboardDxe/TegraKeyboardTextIn.c:66-80 | Over any run, one key is lost for each push that finds 255 keys waiting, and none otherwise |
| `KeyQueue.FirstInFirstOut` | Silicon/Nvidia/NvidiaPkg/Drivers/TegraKeyboardDxe/TegraKeyboardTextIn.c:40-80 | Over any run without resets in which no push finds 255 keys waiting, what is popped and what waits is what was pushed, in order |
| `KeyQueue.RunOnRing` | Silicon/Nvidia/NvidiaPkg/Drivers/TegraKeyboardDxe/TegraKeyboardTextIn.c:40-80 | A run of operations on the ring leaves the waiting keys of that run, and its pops give the keys taken |
| `KeyQueue.StepOnRing` | Silicon/Nvidia/NvidiaPkg/Drivers/TegraKeyboardDxe/TegraKeyboardTextIn.c:40-80 | One operation on the ring does what the run says |
| `KeyRegistration.MatchingKeys` | Silicon/Nvidia/NvidiaPkg/Drivers/TegraKeyboardDxe/TegraKeyboardTextIn.c:93-115 | A registered key matches an input exactly when scan code and character agree and each state agrees or is registered as zero |
| `KeyRegistration.RegisterAppends` | Silicon/Nvidia/NvidiaPkg/Drivers/TegraKeyboardDxe/TegraKeyboardTextIn.c:517-550 | What no entry matches is appended under the given address, and a failing allocation changes nothing |
| `KeyRegistration.RegisterFinds` | Silicon/Nvidia/NvidiaPkg/Drivers/TegraKeyboardDxe/TegraKeyboardTextIn.c:517-527 | Otherwise the list stays, and the handle is that of the first matching entry |
| `KeyRegistration.RegisterKeepsWellFormed` | Silicon/Nvidia/NvidiaPkg/Drivers/TegraKeyboardDxe/TegraKeyboardTextIn.c:517-550 | The list never holds an entry that matches a later entry's key with the same function |
| `KeyRegistration.RegisterIsIdempotent` | Silicon/Nvidia/NvidiaPkg/Drivers/TegraKeyboardDxe/TegraKeyboardTextIn.c:517-550 | Registering the same key and function again changes nothing and gives the same handle |
| `KeyRegistration.UnregisterKeepsWellFormed` | Silicon/Nvidia/NvidiaPkg/Drivers/TegraKeyboardDxe/TegraKeyboardTextIn.c:595-607 | Removing an entry keeps the list well-formed, and the handle is gone |
| `KeyRegistration.UnregisterRemovesOne` | Silicon/Nvidia/NvidiaPkg/Drivers/TegraKeyboardDxe/TegraKeyboardTextIn.c:595-607 | Exactly the entry with the handle goes, wherever it stands in the list |
| `KeyRegistration.UnregisterFailsIff` | Silicon/Nvidia/NvidiaPkg/Drivers/TegraKeyboardDxe/TegraKeyboardTextIn.c:571-614 | Unregistering fails exactly for the null handle and for handles that no entry has |
| `KeyRegistration.UnregisterUndoesRegister` | Silicon/Nvidia/NvidiaPkg/Drivers/TegraKeyboardDxe/TegraKeyboardTextIn.c:571-620 | Unregistering a newly assigned handle restores the list |
| `KeyRegistration.CallsOfEntry` | Silicon/Nvidia/NvidiaPkg/Drivers/TegraKeyboardDxe/TegraKeyboardTextIn.c:660-668 | A key makes one call for each entry that it matches, with the key itself, in the order of the list |
| `KeyRegistration.CallsForAllOfConcat` | Silicon/Nvidia/NvidiaPkg/Drivers/TegraKeyboardDxe/TegraKeyboardTextIn.c:643-669 | The calls for a queue of keys are those for its keys, in order |
| `KeyRegistration.PressCallsEachMatch` | Silicon/Nvidia/NvidiaPkg/Drivers/TegraKeyboardDxe/TegraKeyboardTextIn.c:628-670 | A press with m matching entries makes each of its callbacks m times, 255 times when there are more |
| `KeyRegistration.PressCallsOnce` | Silicon/Nvidia/NvidiaPkg/Drivers/TegraKeyboardDxe/TegraKeyboardTextIn.c:628-670 | The callbacks are those of one round exactly when one entry matches |
| `KeyboardDriver.SkippedAreLeadingPartials` | Silicon/Nvidia/NvidiaPkg/Drivers/TegraKeyboardDxe/TegraKeyboardTextIn.c:300-319 | Skipping drops only partial keys in front, and something is left exactly when a full key waits |
| `KeyboardDriver.SkipsOnlyEmptyKeys` | Silicon/Nvidia/NvidiaPkg/Drivers/TegraKeyboardDxe/TegraKeyboardTextIn.c:243-248 | Only keys with neither a scan code nor a character are skipped |
| `KeyboardDriver.TranslatedIsTranslation` | Silicon/Nvidia/NvidiaPkg/Drivers/TegraKeyboardDxe/TegraKeyboardTextIn.c:254-266 | With a control key down, a letter gives the low five bits of its ASCII code; every other character, and the scan code, stay |
| `KeyboardDriver.ControlCodes` | Silicon/Nvidia/NvidiaPkg/Drivers/TegraKeyboardDxe/TegraKeyboardTextIn.c:254-266 | Control with A to Z, in either case, gives 1 to 26 in order |
| `KeyboardDriver.ReadWithoutNewKeys` | Silicon/Nvidia/NvidiaPkg/Drivers/TegraKeyboardDxe/TegraKeyboardTextIn.c:224-271 | With no new keys, reading gives the first full key, with control translation |
| `KeyboardDriver.ReadGivesFirstFull` | Silicon/Nvidia/NvidiaPkg/Drivers/TegraKeyboardDxe/TegraKeyboardTextIn.c:224-271 | While the key queue does not overflow, a read during which keys arrive gives the first full key of those waiting and those arrived, and leaves all behind it |
| `KeyboardDriver.ReadIsTranslation` | Silicon/Nvidia/NvidiaPkg/Drivers/TegraKeyboardDxe/TegraKeyboardTextIn.c:224-271 | Whatever is reported meanwhile, the key read is the translation of a key that has a scan code or a character |
| `KeyboardDriver.ReportsTaken` | Silicon/Nvidia/NvidiaPkg/Drivers/TegraKeyboardDxe/TegraKeyboardTextIn.c:224-271 | Such a read takes in a further report exactly as long as the next key is there and partial |
| `KeyboardDriver.AcceptedKey` | Silicon/Nvidia/NvidiaPkg/Drivers/TegraKeyboardDxe/TegraKeyboard.c:146-159 | A report takes in every key, or without support for partial keys only those with a scan code or a character |
| `KeyboardDriver.WaitingPredictsReading` | Silicon/Nvidia/NvidiaPkg/Drivers/TegraKeyboardDxe/TegraKeyboardTextIn.c:224-326 | Waiting signals exactly when a following read would succeed, and does not change what it gives |
| `KeyboardDriver.ConsoleInDev.InitKeyboard` | Silicon/Nvidia/NvidiaPkg/Drivers/TegraKeyboardDxe/TegraKeyboardController.c:88-125 | The device is reset, both queues are emptied, all flags are cleared and partial keys are switched off |
| `KeyboardDriver.ConsoleInDev.EfiReset` | Silicon/Nvidia/NvidiaPkg/Drivers/TegraKeyboardDxe/TegraKeyboardTextIn.c:171-211 | A device error changes nothing; otherwise both queues and the flags are empty and partial keys are switched off |
| `KeyboardDriver.ConsoleInDev.TimerHandler` | Silicon/Nvidia/NvidiaPkg/Drivers/TegraKeyboardDxe/TegraKeyboardController.c:41-75 | A poll puts the reported keys into the key queue, and for each matching entry a copy into the notification queue; after an error nothing |
| `KeyboardDriver.ConsoleInDev.GetKeys` | Silicon/Nvidia/NvidiaPkg/Drivers/TegraKeyboardDxe/TegraKeyboardController.c:68 | The reported keys go into both queues one after the other |
| `KeyboardDriver.ConsoleInDev.QueueForMatching` | Silicon/Nvidia/NvidiaPkg/Drivers/TegraKeyboardDxe/TegraKeyboard.c:161-175 | One copy and one signal for each matching entry |
| `KeyboardDriver.ConsoleInDev.PushEfikeyBufTail` | Silicon/Nvidia/NvidiaPkg/Drivers/TegraKeyboardDxe/TegraKeyboard.c:138-178 | A reported key goes into both queues, a partial one only when partial keys are supported |
| `KeyboardDriver.ConsoleInDev.ReadKeyStrokeWorker` | Silicon/Nvidia/NvidiaPkg/Drivers/TegraKeyboardDxe/TegraKeyboardTextIn.c:131-159 | One poll and one pop, or the device error |
| `KeyboardDriver.ConsoleInDev.ReadKeyStroke` | Silicon/Nvidia/NvidiaPkg/Drivers/TegraKeyboardDxe/TegraKeyboardTextIn.c:222-271 | Exactly what a read gives, leaves and has notified, for any reports of the device during it; the key given is the translation of a key that has a scan code or a character |
| `KeyboardDriver.ConsoleInDev.WaitForKey` | Silicon/Nvidia/NvidiaPkg/Drivers/TegraKeyboardDxe/TegraKeyboardTextIn.c:280-326 | The event is signalled exactly when a full key waits; only partial keys in front are dropped |
| `KeyboardDriver.ConsoleInDev.WaitThenRead` | Silicon/Nvidia/NvidiaPkg/Drivers/TegraKeyboardDxe/TegraKeyboardTextIn.c:224-326 | Waiting and then reading with no new keys: the event is signalled exactly when a key is read, and it is the first full one, translated |
| `KeyboardDriver.ConsoleInDev.RegisterKeyNotify` | Silicon/Nvidia/NvidiaPkg/Drivers/TegraKeyboardDxe/TegraKeyboardTextIn.c:490-558 | All outcomes of registering, including each null pointer, as the list function says |
| `KeyboardDriver.ConsoleInDev.UnregisterKeyNotify` | Silicon/Nvidia/NvidiaPkg/Drivers/TegraKeyboardDxe/TegraKeyboardTextIn.c:571-620 | All outcomes of unregistering, as the list function says |
| `KeyboardDriver.ConsoleInDev.KeyNotifyProcessHandler` | Silicon/Nvidia/NvidiaPkg/Drivers/TegraKeyboardDxe/TegraKeyboardTextIn.c:628-670 | Drains the notification queue and makes, for each key in order, the callbacks of all matching entries in list order |
| `KeyboardDriver.ConsoleInDev.PressAndProcess` | Silicon/Nvidia/NvidiaPkg/Drivers/TegraKeyboardDxe/TegraKeyboard.c:138-178 | A press and the signalled handler together make the callbacks counted above |
| `SmbiosStrings.RecordSize` | Silicon/Nvidia/Tegra30Pkg/Drivers/SmBiosTableDxe/SmBiosTableDxe.c:614-632 | The computed size is that of the template and the string set; a null pack counts as an empty one |
| `SmbiosStrings.NullPackFits` | Silicon/Nvidia/Tegra30Pkg/Drivers/SmBiosTableDxe/SmBiosTableDxe.c:614-649 | With a null pack, what the append loop reads through the pointer stays inside the record exactly when it is no string or one empty one |
| `SmbiosStrings.LogSmbiosData` | Silicon/Nvidia/Tegra30Pkg/Drivers/SmBiosTableDxe/SmBiosTableDxe.c:612-650 | The record is the template followed by the string set, with every byte accounted for; also for a null pack whenever the append loop stays inside the record |
| `SmbiosStrings.AppendStrings` | Silicon/Nvidia/Tegra30Pkg/Drivers/SmBiosTableDxe/SmBiosTableDxe.c:641-650 | The append loop writes each string and its null in order |
| `SmbiosStrings.AsciiStrSize` | Silicon/Nvidia/NvidiaPkg/Applications/FrontPage/FrontPage.c:221 | The scan stops at the string's null |
| `SmbiosStrings.GetOptionalStringByIndex` | Silicon/Nvidia/NvidiaPkg/Applications/FrontPage/FrontPage.c:202-236 | The reader's result for every index on any string set, with all reads inside it; number 0 gives the empty string |
| `SmbiosStrings.StringAt` | Silicon/Nvidia/Tegra30Pkg/Drivers/SmBiosTableDxe/SmBiosTableDxe.c:641-650 | Where each string stands and when the byte after its null looks like the end of the set |
| `SmbiosStrings.FirstDoubleNullIsLast` | Silicon/Nvidia/Tegra30Pkg/Drivers/SmBiosTableDxe/SmBiosTableDxe.c:612-649 | When no string is empty, the set ends with the first two nulls in a row |
| `SmbiosStrings.ReadsBackIffNoEmptyString` | Silicon/Nvidia/NvidiaPkg/Applications/FrontPage/FrontPage.c:217-235 | Every number gives its string and every larger one nothing, if and only if none of the first 255 strings is empty |
| `SmbiosStrings.EmptyStringHidesNext` | Silicon/Nvidia/NvidiaPkg/Applications/FrontPage/FrontPage.c:217-235 | In a pack whose second string is empty the third is not found |
| `SmbiosStrings.EmptyStrings` | Silicon/Nvidia/NvidiaPkg/Applications/FrontPage/FrontPage.c:217-235 | An empty string is never found, and one at the front hides none of the others |
| `SmbiosStrings.WriteThenRead` | Silicon/Nvidia/Tegra30Pkg/Drivers/SmBiosTableDxe/SmBiosTableDxe.c:612-650 | Round trip of writer and reader for every pack without empty strings, from number 0, the empty string, on |

## Left out

- WheaStore.EarlyStorage.AddRecordV0Internal: a garbage active range so close to 2 to the 32nd that adding the record size wraps, because the field's type is not part of this model; a null entry.
- Sqrt.SqrtD: real arithmetic instead of rounded doubles. For arguments from 2 to the 32nd on C leaves the conversion undefined; there the model takes any converted value.
- Sqrt.Bsr32: the portable branch only; the compiler intrinsics depend on the width of `long`.
- Console.FrameBufferConsole.PutCharWithFactor: the cursor starts on a line that is a multiple of the scale, as it is when all characters use one scale; displays narrower than one cell or of at most twice the scale in unscaled characters, for which `NewlinePasses` models newlines alone, and sizes that overflow a word, are excluded.
- MaximalSuffix.ComputeMaximalSuffix: one method for the loop that the source writes twice, with the byte order as a parameter.
- KeyboardDriver.ConsoleInDev.InitKeyboard: what resetting the device does; the resets are counted.
- KeyboardDriver.ConsoleInDev.KeyNotifyProcessHandler: callbacks that change the list or the queue while the handler runs.
- KeyboardDriver.ConsoleInDev.ReadKeyStroke: after finitely many reports the device stays silent; otherwise the loop need not end.
- SmbiosStrings.LogSmbiosData: a null pack with which the append loop leaves the record (`NullPackFits`), allocation failure, and handing the finished record to the SMBIOS protocol.
- SmbiosStrings.GetOptionalStringByIndex: allocation and freeing of the result, and widening its characters to 16 bits.
- FbConScrollUp is never called and assumes 16-bit pixels.
- Interrupt state, delays and cache flushes of the console.
- Locating the log buffer in the memory map, null pointers to buffers, and the clear routine of the early-storage library.
- sin_d and cos_d: fixed Taylor sums in floating point.
- KeyboardSetState, task priority levels, event objects and allocation inside the keyboard driver.
- The rest of the UEFI loader, the boot manager, DFCI, the user interface, timers and all tables of constants; the font is an arbitrary table of 192 words.
