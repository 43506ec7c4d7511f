/** The byte format of the early-storage log of MsWheaEarlyStorageLib.c. */
module WheaFormat {
  import opened MachineWord
  import opened Arith

  const STORE_OFFSET: nat := 0x40

  /** The value of a little-endian field. */
  function LittleEndian(s: seq<byte>): nat
  {
    if s == [] then 0 else s[0] + 0x100 * LittleEndian(s[1..])
  }

  function ToLittleEndian(v: nat, width: nat): (s: seq<byte>)
    ensures |s| == width
  {
    if width == 0 then [] else [v % 0x100] + ToLittleEndian(v / 0x100, width - 1)
  }

  lemma {:induction false} LittleEndianOfZero(width: nat)
    ensures LittleEndian(ToLittleEndian(0, width)) == 0
  {
    if width == 0 {
    } else {
      LittleEndianOfZero(width - 1);
    }
  }

  /** A field of one or more bytes holds every 8-bit value. */
  lemma SmallFieldRoundTrip(v: nat, width: nat)
    requires v < 0x100 && 0 < width
    ensures LittleEndian(ToLittleEndian(v, width)) == v
  {
    LittleEndianOfZero(width - 1);
    var s := ToLittleEndian(v, width);
    assert s == [v] + ToLittleEndian(v / 0x100, width - 1) && v / 0x100 == 0;
    assert s[0] == v && s[1..] == ToLittleEndian(0, width - 1);
  }

  lemma {:induction false} ZeroField(s: seq<byte>)
    requires LittleEndian(s) == 0
    ensures s == ToLittleEndian(0, |s|)
  {
    if s == [] {
    } else {
      ZeroField(s[1..]);
      assert s == [s[0]] + s[1..];
    }
  }

  /** A field with an 8-bit value is that value and zeros. */
  lemma SmallField(s: seq<byte>)
    requires s != [] && LittleEndian(s) < 0x100
    ensures s == [LittleEndian(s)] + ToLittleEndian(0, |s| - 1)
  {
    ZeroField(s[1..]);
    assert s == [s[0]] + s[1..];
  }

  /** A two-byte field holds every 16-bit value. */
  lemma WordFieldRoundTrip(v: nat)
    requires v < 0x1_0000
    ensures var s := ToLittleEndian(v, 2); s == [v % 0x100, v / 0x100] && LittleEndian(s) == v
  {
    assert ToLittleEndian(v, 2) == [v % 0x100] + ToLittleEndian(v / 0x100, 1);
    assert ToLittleEndian(v / 0x100, 1) == [v / 0x100] + ToLittleEndian(0, 0);
    var s := ToLittleEndian(v, 2);
    assert s[1..] == [v / 0x100] && LittleEndian(s[1..]) == v / 0x100 + 0x100 * LittleEndian(s[1..][1..]);
  }

  function WordOf(low: byte, high: byte): nat
  {
    low + 0x100 * high
  }

  /** The sum of the 16-bit words, before truncation. */
  function WordSum(s: seq<byte>): nat
  {
    if |s| < 2 then 0 else WordOf(s[0], s[1]) + WordSum(s[2..])
  }

  lemma {:induction false} WordSumOfConcat(a: seq<byte>, b: seq<byte>)
    requires |a| % 2 == 0
    ensures WordSum(a + b) == WordSum(a) + WordSum(b)
  {
    if a == [] {
      assert a + b == b;
    } else {
      assert (a + b)[2..] == a[2..] + b;
      WordSumOfConcat(a[2..], b);
    }
  }

  /** Changing one byte changes the sum of the words by its difference, times its place value in its word. */
  lemma {:induction false} WordSumOfChange(s: seq<byte>, i: nat, b: byte)
    requires |s| % 2 == 0 && i < |s|
    ensures WordSum(s[i := b]) == WordSum(s) + (b - s[i]) * (if i % 2 == 0 then 1 else 0x100)
  {
    if i < 2 {
      assert s[i := b][2..] == s[2..];
    } else {
      assert s[i := b][2..] == s[2..][i - 2 := b];
      WordSumOfChange(s[2..], i - 2, b);
    }
  }

  /** Stands for the library function that sums the 16-bit words of a buffer. */
  function CalculateSum16(s: seq<byte>): nat
  {
    WordSum(s) % 0x1_0000
  }

  /** Cuts a byte sequence into whole records. */
  function Split(data: seq<byte>, size: nat): seq<seq<byte>>
    requires 0 < size
  {
    if |data| < size then [] else [data[..size]] + Split(data[size..], size)
  }

  /** `n` bytes are a whole number of records. */
  predicate IsWhole(n: nat, size: nat)
    requires 0 < size
  {
    n == 0 || (n >= size && IsWhole(n - size, size))
  }

  /**
   The sizes and field positions of the header and of a record, which are given by
   structures outside this model.
   */
  datatype Layout = Layout(header: nat, record: nat, checksumAt: nat, rangeAt: nat, rangeWidth: nat, capacity: nat)
  {
    ghost predicate Valid()
    {
      && header % 2 == 0 && record % 2 == 0 && 0 < record
      && checksumAt % 2 == 0 && checksumAt + 2 <= header
      && 0 < rangeWidth && rangeAt + rangeWidth <= header
      && (checksumAt + 2 <= rangeAt || rangeAt + rangeWidth <= checksumAt)
      && STORE_OFFSET + header + record <= capacity <= 0x100
    }

    // ---------- Header fields ----------

    function Checksum(h: seq<byte>): nat
      requires checksumAt + 2 <= |h|
    {
      LittleEndian(h[checksumAt..checksumAt + 2])
    }

    function WithChecksum(h: seq<byte>, v: nat): (h': seq<byte>)
      requires checksumAt + 2 <= |h|
      ensures |h'| == |h|
    {
      h[..checksumAt] + ToLittleEndian(v, 2) + h[checksumAt + 2..]
    }

    function ActiveRange(h: seq<byte>): nat
      requires rangeAt + rangeWidth <= |h|
    {
      LittleEndian(h[rangeAt..rangeAt + rangeWidth])
    }

    function WithActiveRange(h: seq<byte>, v: nat): (h': seq<byte>)
      requires rangeAt + rangeWidth <= |h|
      ensures |h'| == |h|
    {
      h[..rangeAt] + ToLittleEndian(v, rangeWidth) + h[rangeAt + rangeWidth..]
    }

    // ---------- The log in memory ----------

    function Header(mem: seq<byte>): (h: seq<byte>)
      requires STORE_OFFSET + header <= |mem|
      ensures |h| == header
    {
      mem[STORE_OFFSET..STORE_OFFSET + header]
    }

    function DataStart(): nat
    {
      STORE_OFFSET + header
    }

    /** Where the active range ends. */
    function DataEnd(mem: seq<byte>): nat
      requires DataStart() <= |mem| && rangeAt + rangeWidth <= header
    {
      DataStart() + ActiveRange(Header(mem))
    }

    /** The bytes of the accepted records. */
    function ActiveData(mem: seq<byte>): seq<byte>
      requires rangeAt + rangeWidth <= header
      requires DataStart() <= |mem| && DataStart() + ActiveRange(Header(mem)) <= |mem|
    {
      mem[DataStart()..DataStart() + ActiveRange(Header(mem))]
    }

    /** The active range ends within the store. */
    ghost predicate InStore(mem: seq<byte>)
    {
      Valid() && |mem| == 0x100 && DataEnd(mem) <= capacity
    }

    /** The active range also holds whole records. */
    ghost predicate WellFormed(mem: seq<byte>)
    {
      InStore(mem) && IsWhole(ActiveRange(Header(mem)), record)
    }

    function Records(mem: seq<byte>): seq<seq<byte>>
      requires 0 < record && rangeAt + rangeWidth <= header
      requires DataStart() <= |mem| && DataStart() + ActiveRange(Header(mem)) <= |mem|
    {
      Split(ActiveData(mem), record)
    }

    /** How many bytes of records still fit. */
    ghost function Room(mem: seq<byte>): nat
      requires InStore(mem)
    {
      capacity - DataEnd(mem)
    }

    /** The 16-bit words of the header and the active range sum to zero. */
    ghost predicate ChecksumValid(mem: seq<byte>)
      requires rangeAt + rangeWidth <= header
      requires DataStart() <= |mem| && DataStart() + ActiveRange(Header(mem)) <= |mem|
    {
      (WordSum(Header(mem)) + WordSum(ActiveData(mem))) % 0x1_0000 == 0
    }
  }

  lemma SubtractKeepsRest(n: nat, size: nat)
    requires 0 < size <= n
    ensures n % size == (n - size) % size
  {
    var q, r := (n - size) / size, (n - size) % size;
    assert n == size * (q + 1) + r;
    DivUnique(n, size, q + 1, r);
  }

  lemma {:induction false} WholeIsMultiple(n: nat, size: nat)
    requires 0 < size
    ensures IsWhole(n, size) <==> n % size == 0
  {
    if n < size {
    } else {
      WholeIsMultiple(n - size, size);
      SubtractKeepsRest(n, size);
    }
  }

  lemma {:induction false} WholeIsEven(n: nat, size: nat)
    requires 0 < size && size % 2 == 0 && IsWhole(n, size)
    ensures n % 2 == 0
  {
    if n == 0 {
    } else {
      WholeIsEven(n - size, size);
    }
  }

  lemma {:induction false} SizeOfSplit(data: seq<byte>, size: nat)
    requires 0 < size && IsWhole(|data|, size)
    ensures |data| == |Split(data, size)| * size
  {
    if data == [] {
    } else {
      SizeOfSplit(data[size..], size);
      var n := |Split(data[size..], size)|;
      assert (n + 1) * size == n * size + size;
    }
  }

  /** Appending one record to whole records appends it to the list. */
  lemma {:induction false} SplitOfConcat(data: seq<byte>, last: seq<byte>, size: nat)
    requires 0 < size == |last| && IsWhole(|data|, size)
    ensures Split(data + last, size) == Split(data, size) + [last]
  {
    if data == [] {
      assert data + last == last && last[..size] == last;
      assert Split(last[size..], size) == [];
    } else {
      assert (data + last)[size..] == data[size..] + last;
      assert (data + last)[..size] == data[..size];
      SplitOfConcat(data[size..], last, size);
    }
  }

  // ---------- Field updates ----------

  lemma OtherFieldKept(h: seq<byte>, at: nat, field: seq<byte>, otherAt: nat, width: nat)
    requires at + |field| <= |h| && otherAt + width <= |h|
    requires at + |field| <= otherAt || otherAt + width <= at
    ensures (h[..at] + field + h[at + |field|..])[otherAt..otherAt + width] == h[otherAt..otherAt + width]
  {
  }

  lemma RangeOfUpdatedHeader(l: Layout, h: seq<byte>, range: nat, checksum: nat)
    requires l.Valid() && |h| == l.header && range < 0x100
    ensures l.ActiveRange(l.WithChecksum(l.WithActiveRange(h, range), checksum)) == range
    ensures l.ActiveRange(l.WithActiveRange(h, range)) == range
  {
    var h1 := l.WithActiveRange(h, range);
    var h2 := l.WithChecksum(h1, checksum);
    assert h1[l.rangeAt..l.rangeAt + l.rangeWidth] == ToLittleEndian(range, l.rangeWidth);
    OtherFieldKept(h1, l.checksumAt, ToLittleEndian(checksum, 2), l.rangeAt, l.rangeWidth);
    SmallFieldRoundTrip(range, l.rangeWidth);
  }

  lemma SumWithChecksum(l: Layout, h: seq<byte>, checksum: nat)
    requires l.Valid() && |h| == l.header && checksum < 0x1_0000
    ensures WordSum(l.WithChecksum(h, checksum))
            == WordSum(h[..l.checksumAt]) + checksum + WordSum(h[l.checksumAt + 2..])
  {
    var pre, post := h[..l.checksumAt], h[l.checksumAt + 2..];
    WordFieldRoundTrip(checksum);
    WordSumOfConcat(pre + ToLittleEndian(checksum, 2), post);
    WordSumOfConcat(pre, ToLittleEndian(checksum, 2));
    var field := ToLittleEndian(checksum, 2);
    assert WordSum(field) == WordOf(field[0], field[1]) + WordSum(field[2..]);
  }

  /** The header's sum with a checksum in place of a zero one. */
  lemma ChecksumAddsToSum(l: Layout, h: seq<byte>, checksum: nat)
    requires l.Valid() && |h| == l.header && checksum < 0x1_0000
    ensures WordSum(l.WithChecksum(h, checksum)) == WordSum(l.WithChecksum(h, 0)) + checksum
    ensures l.Checksum(l.WithChecksum(h, checksum)) == checksum
  {
    SumWithChecksum(l, h, checksum);
    SumWithChecksum(l, h, 0);
    var h' := l.WithChecksum(h, checksum);
    assert h'[l.checksumAt..l.checksumAt + 2] == ToLittleEndian(checksum, 2);
    WordFieldRoundTrip(checksum);
  }

  lemma WithChecksumTwice(l: Layout, h: seq<byte>, a: nat, b: nat)
    requires l.Valid() && |h| == l.header
    ensures l.WithChecksum(l.WithChecksum(h, a), b) == l.WithChecksum(h, b)
  {
  }

  /** Putting back the value of the checksum field restores the header. */
  lemma WithOwnChecksum(l: Layout, h: seq<byte>)
    requires l.Valid() && |h| == l.header
    ensures l.Checksum(h) < 0x1_0000 && l.WithChecksum(h, l.Checksum(h)) == h
  {
    var s := h[l.checksumAt..l.checksumAt + 2];
    assert LittleEndian(s[1..]) == s[1] + 0x100 * LittleEndian(s[1..][1..]);
    WordFieldRoundTrip(l.Checksum(h));
    assert h == h[..l.checksumAt] + s + h[l.checksumAt + 2..];
  }
}
