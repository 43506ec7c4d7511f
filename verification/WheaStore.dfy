/** The early-storage routines of MsWheaEarlyStorageLib.c. */
module WheaStore {
  import opened MachineWord
  import opened WheaFormat

  datatype Status = Success | InvalidParameter | OutOfResources | BadBufferSize

  function Low8(v: int): byte
  {
    v % 0x100
  }

  lemma SmallIsLow8(v: int)
    requires 0 <= v < 0x100
    ensures Low8(v) == v
  {
  }

  /** The check with which the raw routines refuse a request. */
  predicate Refused(capacity: nat, size: byte, offset: byte)
  {
    size == 0 || Low8(capacity - size) < offset
  }

  /**
   The check keeps all requests of a size inside the store exactly when the size is not
   larger than the whole store: a larger one makes the 8-bit difference wrap, and
   then the check is right for high offsets only.
   */
  lemma RefusedIsBoundsCheck(capacity: nat, size: byte, offset: byte)
    requires 0 < capacity <= 0x100 && 0 < size
    ensures size <= capacity ==> (Refused(capacity, size, offset) <==> offset + size > capacity)
    ensures (forall o: byte :: !Refused(capacity, size, o) ==> o + size <= capacity) <==> size <= capacity
    ensures (Refused(capacity, size, offset) <==> offset + size > capacity)
            <==> (size <= capacity || offset > 0x100 + capacity - size)
  {
    if size > capacity {
      assert !Refused(capacity, size, 0);
    }
  }

  // ---------- What a write leaves ----------

  /** The memory with `buf` stored at `at`. */
  function Overwritten(mem: seq<byte>, at: nat, buf: seq<byte>): (r: seq<byte>)
    requires at + |buf| <= |mem|
    ensures |r| == |mem|
  {
    mem[..at] + buf + mem[at + |buf|..]
  }

  /** The memory with `buf` stored from `at` on by an 8-bit index, which goes around at the end. */
  function Stored(mem: seq<byte>, at: byte, buf: seq<byte>): (r: seq<byte>)
    requires |mem| == 0x100 && |buf| <= 0x100
    ensures |r| == 0x100
  {
    seq(0x100, j requires 0 <= j < 0x100 => if Low8(j - at) < |buf| then buf[Low8(j - at)] else mem[j])
  }

  lemma StoredIsOverwritten(mem: seq<byte>, at: byte, buf: seq<byte>)
    requires |mem| == 0x100 && at + |buf| <= 0x100
    ensures Stored(mem, at, buf) == Overwritten(mem, at, buf)
  {
    forall j | 0 <= j < 0x100
      ensures Stored(mem, at, buf)[j] == Overwritten(mem, at, buf)[j]
    {
      assert Low8(j - at) == if j < at then j - at + 0x100 else j - at;
    }
  }

  lemma StoredOneMore(mem: seq<byte>, at: byte, buf: seq<byte>, i: nat)
    requires |mem| == 0x100 && i < |buf| <= 0x100
    ensures Stored(mem, at, buf[..i])[Low8(at + i) := buf[i]] == Stored(mem, at, buf[..i + 1])
  {
    var r := Stored(mem, at, buf[..i])[Low8(at + i) := buf[i]];
    forall j | 0 <= j < 0x100
      ensures r[j] == Stored(mem, at, buf[..i + 1])[j]
    {
      assert Low8(j - at) == i <==> j == Low8(at + i);
    }
  }

  /** The trace has grown by the memories with one, two, ... all bytes of `buf` stored from `at` on. */
  ghost predicate WritesTraced(before: seq<seq<byte>>, after: seq<seq<byte>>, mem: seq<byte>, at: byte, buf: seq<byte>)
    requires |mem| == 0x100 && |buf| <= 0x100
  {
    |after| == |before| + |buf| && after[..|before|] == before &&
    forall k :: 1 <= k <= |buf| ==> after[|before| + k - 1] == Stored(mem, at, buf[..k])
  }

  lemma OneMoreByte(before: seq<seq<byte>>, soFar: seq<seq<byte>>, mem: seq<byte>, at: byte, buf: seq<byte>, i: nat)
    requires |mem| == 0x100 && i < |buf| <= 0x100 && WritesTraced(before, soFar, mem, at, buf[..i])
    ensures var now := Stored(mem, at, buf[..i])[Low8(at + i) := buf[i]];
            now == Stored(mem, at, buf[..i + 1]) && WritesTraced(before, soFar + [now], mem, at, buf[..i + 1])
  {
    StoredOneMore(mem, at, buf, i);
    var longer := buf[..i + 1];
    var after := soFar + [Stored(mem, at, longer)];
    forall k | 1 <= k <= |longer|
      ensures after[|before| + k - 1] == Stored(mem, at, longer[..k])
    {
      if k <= i {
        assert buf[..i][..k] == longer[..k];
      } else {
        assert longer[..k] == longer;
      }
    }
  }

  // ---------- Which requests stay inside the store ----------

  /** No request of this size that the raw writer lets through changes a byte behind the store. */
  ghost predicate RawWritesStayInside(capacity: nat, size: byte)
    requires capacity <= 0x100
  {
    forall mem: seq<byte>, at: byte, buf: seq<byte> ::
      |mem| == 0x100 && |buf| == size && !Refused(capacity, size, at) ==>
        Stored(mem, at, buf)[capacity..] == mem[capacity..]
  }

  /** The check with which the routines relative to the store refuse a request. */
  predicate RefusedInStore(capacity: nat, size: byte, offset: byte)
  {
    offset >= Low8(capacity - STORE_OFFSET) || Refused(capacity, size, Low8(STORE_OFFSET + offset))
  }

  /** The same for the writer relative to the store, which also has bytes in front of it. */
  ghost predicate WritesStayInside(capacity: nat, size: byte)
    requires STORE_OFFSET <= capacity <= 0x100
  {
    forall mem: seq<byte>, offset: byte, buf: seq<byte> ::
      |mem| == 0x100 && |buf| == size && !RefusedInStore(capacity, size, offset) ==>
        var after := Stored(mem, Low8(STORE_OFFSET + offset), buf);
        after[..STORE_OFFSET] == mem[..STORE_OFFSET] && after[capacity..] == mem[capacity..]
  }

  /** A write that starts inside and is longer than the store changes the byte behind its end. */
  lemma LongWriteLeavesStore(capacity: nat, size: byte, at: byte) returns (mem: seq<byte>, buf: seq<byte>)
    requires at <= capacity < size
    ensures |mem| == 0x100 && |buf| == size
    ensures Stored(mem, at, buf)[capacity..] != mem[capacity..]
  {
    mem, buf := seq(0x100, _ => 0), seq(size, _ => 1);
    assert Low8(capacity - at) == capacity - at;
    assert Stored(mem, at, buf)[capacity..][0] == 1;
  }

  lemma ShortWriteStaysInside(capacity: nat, mem: seq<byte>, at: byte, buf: seq<byte>)
    requires |mem| == 0x100 && at + |buf| <= capacity <= 0x100
    ensures Stored(mem, at, buf)[..at] == mem[..at] && Stored(mem, at, buf)[capacity..] == mem[capacity..]
  {
    StoredIsOverwritten(mem, at, buf);
  }

  /** Raw writes stay inside the store exactly for requests that are not larger than the store. */
  lemma RawWritesStayInsideIffNotLarger(capacity: nat, size: byte)
    requires 0 < capacity <= 0x100
    ensures RawWritesStayInside(capacity, size) <==> size <= capacity
  {
    if size <= capacity {
      forall mem: seq<byte>, at: byte, buf: seq<byte> | |mem| == 0x100 && |buf| == size && !Refused(capacity, size, at)
        ensures Stored(mem, at, buf)[capacity..] == mem[capacity..]
      {
        RefusedIsBoundsCheck(capacity, size, at);
        ShortWriteStaysInside(capacity, mem, at, buf);
      }
    } else {
      var mem, buf := LongWriteLeavesStore(capacity, size, 0);
      assert !Refused(capacity, size, 0);
    }
  }

  lemma AcceptedWriteStaysInside(capacity: nat, mem: seq<byte>, offset: byte, buf: seq<byte>)
    requires STORE_OFFSET < capacity <= 0x100 && |mem| == 0x100 && |buf| < 0x100 && |buf| <= capacity
    requires !RefusedInStore(capacity, |buf|, offset)
    ensures var after := Stored(mem, Low8(STORE_OFFSET + offset), buf);
            after[..STORE_OFFSET] == mem[..STORE_OFFSET] && after[capacity..] == mem[capacity..]
  {
    SmallIsLow8(capacity - STORE_OFFSET);
    SmallIsLow8(STORE_OFFSET + offset);
    var at := Low8(STORE_OFFSET + offset);
    RefusedIsBoundsCheck(capacity, |buf|, at);
    ShortWriteStaysInside(capacity, mem, at, buf);
    assert mem[..STORE_OFFSET] == mem[..at][..STORE_OFFSET];
    assert Stored(mem, at, buf)[..STORE_OFFSET] == Stored(mem, at, buf)[..at][..STORE_OFFSET];
  }

  /** So do the writes relative to the store, which leave the bytes in front of it alone, too. */
  lemma WritesStayInsideIffNotLarger(capacity: nat, size: byte)
    requires STORE_OFFSET < capacity <= 0x100
    ensures WritesStayInside(capacity, size) <==> size <= capacity
  {
    if size <= capacity {
      forall mem: seq<byte>, offset: byte, buf: seq<byte> |
        |mem| == 0x100 && |buf| == size && !RefusedInStore(capacity, size, offset)
        ensures var after := Stored(mem, Low8(STORE_OFFSET + offset), buf);
                after[..STORE_OFFSET] == mem[..STORE_OFFSET] && after[capacity..] == mem[capacity..]
      {
        AcceptedWriteStaysInside(capacity, mem, offset, buf);
      }
    } else {
      var mem, buf := LongWriteLeavesStore(capacity, size, STORE_OFFSET);
      assert !RefusedInStore(capacity, size, 0);
    }
  }

  // ---------- The log on the memory ----------

  /** Header and active bytes of two memories are the same. */
  ghost predicate SameLog(l: Layout, a: seq<byte>, b: seq<byte>)
    requires l.InStore(a) && l.InStore(b)
  {
    l.Header(a) == l.Header(b) && l.ActiveData(a) == l.ActiveData(b)
  }

  lemma SplitSlice(s: seq<byte>, from: nat, mid: nat, to: nat)
    requires from <= mid <= to <= |s|
    ensures s[from..mid] == s[from..to][..mid - from] && s[mid..to] == s[from..to][mid - from..]
  {
  }

  /** A memory that differs only behind the active range holds the same log. */
  lemma WriteBehindKeepsLog(l: Layout, a: seq<byte>, b: seq<byte>)
    requires l.InStore(a) && |b| == |a|
    requires var end := l.DataStart() + l.ActiveRange(l.Header(a)); a[STORE_OFFSET..end] == b[STORE_OFFSET..end]
    ensures l.InStore(b) && SameLog(l, a, b)
  {
    var end := l.DataStart() + l.ActiveRange(l.Header(a));
    SplitSlice(a, STORE_OFFSET, l.DataStart(), end);
    SplitSlice(b, STORE_OFFSET, l.DataStart(), end);
  }

  ghost predicate SumsToZero(header: seq<byte>, data: seq<byte>)
  {
    (WordSum(header) + WordSum(data)) % 0x1_0000 == 0
  }

  /** A sum that vanishes does so no longer after one byte has changed. */
  lemma ChangeShowsInSum(sum: int, d: int, place: int)
    requires sum % 0x1_0000 == 0 && -0x100 < d < 0x100 && d != 0 && (place == 1 || place == 0x100)
    ensures (sum + d * place) % 0x1_0000 != 0
  {
  }

  /** One changed byte of an even number of bytes shows in a sum with others. */
  lemma ChangeShows(s: seq<byte>, i: nat, b: byte, others: nat)
    requires |s| % 2 == 0 && i < |s| && b != s[i] && (WordSum(s) + others) % 0x1_0000 == 0
    ensures (WordSum(s[i := b]) + others) % 0x1_0000 != 0
  {
    var place := if i % 2 == 0 then 1 else 0x100;
    WordSumOfChange(s, i, b);
    ChangeShowsInSum(WordSum(s) + others, b - s[i], place);
  }

  lemma SliceOfChange(s: seq<byte>, from: nat, to: nat, i: nat, b: byte)
    requires from <= to <= |s| && i < |s|
    ensures s[i := b][from..to] == if from <= i < to then s[from..to][i - from := b] else s[from..to]
  {
  }

  lemma ChangeInParts(s: seq<byte>, from: nat, mid: nat, to: nat, i: nat, b: byte)
    requires from <= mid <= to <= |s| && from <= i < to && b != s[i]
    requires (mid - from) % 2 == 0 && (to - mid) % 2 == 0
    requires (WordSum(s[from..mid]) + WordSum(s[mid..to])) % 0x1_0000 == 0
    ensures (WordSum(s[i := b][from..mid]) + WordSum(s[i := b][mid..to])) % 0x1_0000 != 0
  {
    SliceOfChange(s, from, mid, i, b);
    SliceOfChange(s, mid, to, i, b);
    if i < mid {
      ChangeShows(s[from..mid], i - from, b, WordSum(s[mid..to]));
    } else {
      ChangeShows(s[mid..to], i - mid, b, WordSum(s[from..mid]));
    }
  }

  /**
   The checksum detects every change of a single byte of the header or the active range,
   unless the active range itself is no longer the same.
   */
  lemma ChecksumDetectsChange(l: Layout, mem: seq<byte>, i: nat, b: byte)
    requires l.InStore(mem) && l.ActiveRange(l.Header(mem)) % 2 == 0 && l.ChecksumValid(mem)
    requires STORE_OFFSET <= i < l.DataEnd(mem) && b != mem[i]
    requires l.ActiveRange(l.Header(mem[i := b])) == l.ActiveRange(l.Header(mem))
    ensures !l.ChecksumValid(mem[i := b])
  {
    ChangeInParts(mem, STORE_OFFSET, l.DataStart(), l.DataEnd(mem), i, b);
  }

  lemma TruncatedSum(a: nat, b: nat)
    ensures (a % 0x1_0000 + b) % 0x1_0000 == (a + b) % 0x1_0000
  {
  }

  lemma SliceOfTail(s: seq<byte>, start: nat, i: nat, n: nat)
    requires start + i + n <= |s|
    ensures s[start..][i..i + n] == s[start + i..start + i + n]
  {
  }

  lemma WordSumStep(data: seq<byte>, i: nat)
    requires i % 2 == 0 && i + 2 <= |data|
    ensures WordSum(data[..i + 2]) == WordSum(data[..i]) + WordOf(data[i], data[i + 1])
  {
    var word := data[i..i + 2];
    WordSumOfConcat(data[..i], word);
    assert data[..i + 2] == data[..i] + word;
    assert WordSum(word) == WordOf(word[0], word[1]) + WordSum(word[2..]);
  }

  /** The truncated sum of the first `n` words, added to `sum0`. */
  ghost function SumOfWords(sum0: nat, data: seq<byte>, n: nat): nat
    requires 2 * n <= |data|
  {
    (sum0 + WordSum(data[..2 * n])) % 0x1_0000
  }

  lemma SumStep(sum0: nat, data: seq<byte>, n: nat)
    requires 2 * n + 2 <= |data|
    ensures SumOfWords(sum0, data, n + 1)
         == (SumOfWords(sum0, data, n) + WordOf(data[2 * n], data[2 * n + 1])) % 0x1_0000
  {
    WordSumStep(data, 2 * n);
    TruncatedSum(sum0 + WordSum(data[..2 * n]), WordOf(data[2 * n], data[2 * n + 1]));
  }

  lemma NegatedSum(a: nat, b: nat, c: nat, total: nat)
    requires c == (0x1_0000 - (a % 0x1_0000 + b) % 0x1_0000) % 0x1_0000 && total == a + c
    ensures (total + b) % 0x1_0000 == 0
  {
  }

  /** The header that an addition writes back, whose sum with the new data vanishes. */
  lemma NewHeaderSumsToZero(l: Layout, h: seq<byte>, data: seq<byte>, checksum: nat)
    requires l.Valid() && |h| == l.header
    requires checksum == (0x1_0000 - (CalculateSum16(l.WithChecksum(h, 0)) + WordSum(data)) % 0x1_0000) % 0x1_0000
    ensures SumsToZero(l.WithChecksum(h, checksum), data)
  {
    ChecksumAddsToSum(l, h, checksum);
    NegatedSum(WordSum(l.WithChecksum(h, 0)), WordSum(data), checksum, WordSum(l.WithChecksum(h, checksum)));
  }

  // ---------- An addition, seen on the memory ----------

  lemma PartialRecordKeepsLog(l: Layout, mem: seq<byte>, part: seq<byte>)
    requires l.InStore(mem)
    requires l.DataEnd(mem) + |part| <= l.capacity
    ensures var after := Overwritten(mem, l.DataEnd(mem), part);
            l.InStore(after) && SameLog(l, mem, after)
  {
    WriteBehindKeepsLog(l, mem, Overwritten(mem, l.DataEnd(mem), part));
  }

  /** All memories recorded while the record is being written hold the log of `mem`. */
  ghost predicate OldLogSurvives(l: Layout, before: seq<seq<byte>>, after: seq<seq<byte>>, mem: seq<byte>)
    requires l.InStore(mem)
  {
    |before| + l.record <= |after| && after[..|before|] == before &&
    forall i :: |before| <= i < |before| + l.record ==> l.InStore(after[i]) && SameLog(l, mem, after[i])
  }

  lemma RecordWriteKeepsLog(l: Layout, before: seq<seq<byte>>, after: seq<seq<byte>>, mem: seq<byte>, entry: seq<byte>)
    requires l.InStore(mem) && |entry| == l.record
    requires l.DataEnd(mem) + l.record <= l.capacity
    requires WritesTraced(before, after, mem, l.DataEnd(mem), entry)
    ensures OldLogSurvives(l, before, after, mem)
  {
    forall i | |before| <= i < |before| + l.record
      ensures l.InStore(after[i]) && SameLog(l, mem, after[i])
    {
      var k := i - |before| + 1;
      assert after[|before| + k - 1] == Stored(mem, l.DataEnd(mem), entry[..k]);
      StoredIsOverwritten(mem, l.DataEnd(mem), entry[..k]);
      PartialRecordKeepsLog(l, mem, entry[..k]);
    }
  }

  lemma SurvivesMore(l: Layout, before: seq<seq<byte>>, after: seq<seq<byte>>, later: seq<seq<byte>>, mem: seq<byte>)
    requires l.InStore(mem) && OldLogSurvives(l, before, after, mem)
    requires |after| <= |later| && later[..|after|] == after
    ensures OldLogSurvives(l, before, later, mem)
  {
    assert later[..|before|] == later[..|after|][..|before|];
    forall i | |before| <= i < |before| + l.record
      ensures l.InStore(later[i]) && SameLog(l, mem, later[i])
    {
      assert later[i] == later[..|after|][i];
    }
  }

  /** An addition interrupted while its record is being written: records and checksum are those from before. */
  lemma InterruptedAdditionKeepsLog(l: Layout, before: seq<seq<byte>>, after: seq<seq<byte>>, mem: seq<byte>, i: nat)
    requires l.InStore(mem) && OldLogSurvives(l, before, after, mem) && i < l.record
    ensures var now := after[|before| + i];
            && l.InStore(now) && l.ActiveRange(l.Header(now)) == l.ActiveRange(l.Header(mem))
            && (l.WellFormed(now) <==> l.WellFormed(mem)) && l.Records(now) == l.Records(mem)
            && (l.ChecksumValid(now) <==> l.ChecksumValid(mem))
  {
    var now := after[|before| + i];
    assert l.InStore(now) && SameLog(l, mem, now);
  }

  /** The header with a longer range and some checksum, and otherwise as before. */
  ghost predicate IsExtendedHeader(l: Layout, before: seq<byte>, after: seq<byte>)
    requires l.Valid() && |before| == |after| == l.header
  {
    && l.ActiveRange(after) == l.ActiveRange(before) + l.record
    && after == l.WithChecksum(l.WithActiveRange(before, l.ActiveRange(after)), l.Checksum(after))
  }

  /** After a whole addition: the record's bytes behind the old data, less room, and a valid checksum. */
  ghost predicate DataGrewBy(l: Layout, before: seq<byte>, after: seq<byte>, entry: seq<byte>)
    requires l.InStore(before)
  {
    && l.InStore(after)
    && l.ActiveData(after) == l.ActiveData(before) + entry
    && l.Room(after) == l.Room(before) - l.record
    && l.ChecksumValid(after)
  }

  /** In terms of records: one more. */
  ghost predicate LogGrewBy(l: Layout, before: seq<byte>, after: seq<byte>, entry: seq<byte>)
    requires l.WellFormed(before)
  {
    && l.WellFormed(after)
    && l.Records(after) == l.Records(before) + [entry]
    && l.Room(after) == l.Room(before) - l.record
    && l.ChecksumValid(after)
  }

  lemma RecordsHaveGrown(l: Layout, before: seq<byte>, after: seq<byte>, entry: seq<byte>)
    requires l.WellFormed(before) && |entry| == l.record && DataGrewBy(l, before, after, entry)
    ensures LogGrewBy(l, before, after, entry)
  {
    SplitOfConcat(l.ActiveData(before), entry, l.record);
  }

  /** All memory before the header and behind the new record. */
  ghost predicate RestUntouched(l: Layout, before: seq<byte>, after: seq<byte>)
    requires l.InStore(before) && |after| == |before| && l.DataEnd(before) + l.record <= |before|
  {
    after[..STORE_OFFSET] == before[..STORE_OFFSET] &&
    after[l.DataEnd(before) + l.record..] == before[l.DataEnd(before) + l.record..]
  }

  lemma RestIsUntouched(l: Layout, before: seq<byte>, entry: seq<byte>, header: seq<byte>, after: seq<byte>)
    requires l.InStore(before) && |entry| == l.record && |header| == l.header
    requires l.DataEnd(before) + l.record <= l.capacity
    requires after == Overwritten(Overwritten(before, l.DataEnd(before), entry), STORE_OFFSET, header)
    ensures RestUntouched(l, before, after) && l.Header(after) == header
  {
    var middle, end := Overwritten(before, l.DataEnd(before), entry), l.DataEnd(before) + l.record;
    assert after[..STORE_OFFSET] == middle[..STORE_OFFSET] == before[..STORE_OFFSET];
    assert after[end..] == middle[end..] == before[end..];
  }

  lemma GrownData(l: Layout, before: seq<byte>, entry: seq<byte>, header: seq<byte>, after: seq<byte>)
    requires l.InStore(before) && |entry| == l.record && |header| == l.header
    requires l.DataEnd(before) + l.record <= l.capacity
    requires l.ActiveRange(header) == l.ActiveRange(l.Header(before)) + l.record
    requires after == Overwritten(Overwritten(before, l.DataEnd(before), entry), STORE_OFFSET, header)
    ensures l.Header(after) == header && l.DataEnd(after) == l.DataEnd(before) + l.record
    ensures l.ActiveData(after) == l.ActiveData(before) + entry
    ensures l.ActiveData(after)
            == Overwritten(before, l.DataEnd(before), entry)[l.DataStart()..][..l.ActiveRange(header)]
  {
    var middle, start := Overwritten(before, l.DataEnd(before), entry), l.DataStart();
    var range := l.ActiveRange(header);
    assert l.Header(after) == header;
    assert after[start..] == middle[start..];
    assert l.ActiveData(after) == after[start..start + range] == after[start..][..range];
    assert middle[start..][..range] == middle[start..start + range];
    assert middle[start..start + range] == before[start..l.DataEnd(before)] + entry;
  }

  /** With the record behind the old data and the header rewritten, the active data has grown by the record. */
  lemma DataHasGrown(l: Layout, before: seq<byte>, entry: seq<byte>, header: seq<byte>, after: seq<byte>)
    requires l.InStore(before) && |entry| == l.record && |header| == l.header
    requires var range := l.ActiveRange(l.Header(before));
             && l.DataStart() + range + l.record <= l.capacity
             && l.ActiveRange(header) == range + l.record
             && after == Overwritten(Overwritten(before, l.DataStart() + range, entry), STORE_OFFSET, header)
    requires SumsToZero(header, Overwritten(before, l.DataEnd(before), entry)[l.DataStart()..][..l.ActiveRange(header)])
    ensures DataGrewBy(l, before, after, entry)
  {
    GrownData(l, before, entry, header, after);
  }

  // ---------- What an addition does ----------

  /** From step `n` on, the trace shows the header being written over byte by byte. */
  ghost predicate HeaderTraced(l: Layout, middle: seq<byte>, header: seq<byte>, n: nat, trace: seq<seq<byte>>)
    requires |middle| == 0x100 && l.Valid() && |header| == l.header
  {
    |trace| == n + l.header &&
    forall k :: 1 <= k <= l.header ==> trace[n + k - 1] == Overwritten(middle, STORE_OFFSET, header[..k])
  }

  /**
   The outcome of an addition, for any header. A record that does not fit changes no
   byte. Behind an odd active range its bytes are written, but the checksum is refused
   and the log stays as it was. Otherwise the active data afterwards is the old data
   with the record at its end, the checksum is valid, and the rest of the header and of
   the memory is untouched. Every memory on the way, up to the last byte of the record,
   still holds the old log unchanged.
   */
  ghost predicate IsAddition(l: Layout, before: seq<byte>, after: seq<byte>, trace0: seq<seq<byte>>,
                             trace: seq<seq<byte>>, entry: seq<byte>, status: Status)
    requires l.Valid() && |before| == |after| == 0x100 && |entry| == l.record
  {
    if l.DataEnd(before) + l.record > l.capacity then
      status == OutOfResources && after == before && trace == trace0
    else
      && l.InStore(after) && OldLogSurvives(l, trace0, trace, before)
      && if l.ActiveRange(l.Header(before)) % 2 != 0 then
           && status == BadBufferSize && SameLog(l, before, after)
           && after == Overwritten(before, l.DataEnd(before), entry)
         else
           && status == Success && DataGrewBy(l, before, after, entry) && RestUntouched(l, before, after)
           && IsExtendedHeader(l, l.Header(before), l.Header(after))
           && HeaderTraced(l, Overwritten(before, l.DataEnd(before), entry), l.Header(after), |trace0| + l.record,
                           trace)
  }

  lemma HeaderIsTraced(l: Layout, middle: seq<byte>, header: seq<byte>, recorded: seq<seq<byte>>, trace: seq<seq<byte>>)
    requires |middle| == 0x100 && l.Valid() && |header| == l.header
    requires WritesTraced(recorded, trace, middle, STORE_OFFSET, header)
    ensures HeaderTraced(l, middle, header, |recorded|, trace)
  {
    forall k | 1 <= k <= l.header
      ensures trace[|recorded| + k - 1] == Overwritten(middle, STORE_OFFSET, header[..k])
    {
      StoredIsOverwritten(middle, STORE_OFFSET, header[..k]);
    }
  }

  /** With the record written and the header rewritten, the addition has the promised effect on the memory. */
  lemma AdditionEffect(l: Layout, before: seq<byte>, middle: seq<byte>, header: seq<byte>, after: seq<byte>,
                       entry: seq<byte>)
    requires l.InStore(before) && |entry| == l.record <= l.Room(before) && |header| == l.header
    requires IsExtendedHeader(l, l.Header(before), header)
    requires middle == Overwritten(before, l.DataEnd(before), entry)
    requires after == Overwritten(middle, STORE_OFFSET, header)
    requires SumsToZero(header, middle[l.DataStart()..][..l.ActiveRange(header)])
    ensures DataGrewBy(l, before, after, entry) && RestUntouched(l, before, after) && l.Header(after) == header
  {
    DataHasGrown(l, before, entry, header, after);
    RestIsUntouched(l, before, entry, header, after);
  }

  /** And its whole history is known. */
  lemma AdditionHistory(l: Layout, before: seq<byte>, middle: seq<byte>, header: seq<byte>, trace0: seq<seq<byte>>,
                        recorded: seq<seq<byte>>, trace: seq<seq<byte>>)
    requires l.InStore(before) && |middle| == 0x100 && |header| == l.header
    requires OldLogSurvives(l, trace0, recorded, before) && |recorded| == |trace0| + l.record
    requires WritesTraced(recorded, trace, middle, STORE_OFFSET, header)
    ensures OldLogSurvives(l, trace0, trace, before)
    ensures HeaderTraced(l, middle, header, |trace0| + l.record, trace)
  {
    HeaderIsTraced(l, middle, header, recorded, trace);
    SurvivesMore(l, trace0, recorded, trace, before);
  }

  lemma AdditionOf(l: Layout, before: seq<byte>, middle: seq<byte>, after: seq<byte>, trace0: seq<seq<byte>>,
                   trace: seq<seq<byte>>, entry: seq<byte>)
    requires l.InStore(before) && |entry| == l.record <= l.Room(before) && |after| == 0x100
    requires l.ActiveRange(l.Header(before)) % 2 == 0 && middle == Overwritten(before, l.DataEnd(before), entry)
    requires DataGrewBy(l, before, after, entry) && RestUntouched(l, before, after)
    requires IsExtendedHeader(l, l.Header(before), l.Header(after)) && OldLogSurvives(l, trace0, trace, before)
    requires HeaderTraced(l, middle, l.Header(after), |trace0| + l.record, trace)
    ensures IsAddition(l, before, after, trace0, trace, entry, Success)
  {
  }

  lemma AdditionIsComplete(l: Layout, before: seq<byte>, middle: seq<byte>, header: seq<byte>, after: seq<byte>,
                           trace0: seq<seq<byte>>, recorded: seq<seq<byte>>, trace: seq<seq<byte>>, entry: seq<byte>)
    requires l.InStore(before) && |entry| == l.record <= l.Room(before) && |header| == l.header
    requires l.ActiveRange(l.Header(before)) % 2 == 0 && IsExtendedHeader(l, l.Header(before), header)
    requires middle == Overwritten(before, l.DataEnd(before), entry)
    requires after == Overwritten(middle, STORE_OFFSET, header)
    requires SumsToZero(header, middle[l.DataStart()..][..l.ActiveRange(header)])
    requires OldLogSurvives(l, trace0, recorded, before) && |recorded| == |trace0| + l.record
    requires WritesTraced(recorded, trace, middle, STORE_OFFSET, header)
    ensures IsAddition(l, before, after, trace0, trace, entry, Success)
  {
    AdditionEffect(l, before, middle, header, after, entry);
    AdditionHistory(l, before, middle, header, trace0, recorded, trace);
    AdditionOf(l, before, middle, after, trace0, trace, entry);
  }

  /** In a well-formed log an addition adds exactly one record, if it fits. */
  lemma AdditionToLog(l: Layout, before: seq<byte>, after: seq<byte>, trace0: seq<seq<byte>>, trace: seq<seq<byte>>,
                      entry: seq<byte>, status: Status)
    requires l.WellFormed(before) && |after| == 0x100 && |entry| == l.record
    requires IsAddition(l, before, after, trace0, trace, entry, status)
    ensures if l.record <= l.Room(before) then status == Success && LogGrewBy(l, before, after, entry)
            else status == OutOfResources && after == before
  {
    WholeIsEven(l.ActiveRange(l.Header(before)), l.record);
    if l.record <= l.Room(before) {
      RecordsHaveGrown(l, before, after, entry);
    }
  }

  // ---------- The log at every byte of an addition ----------

  lemma FieldInRest(a: seq<byte>, b: seq<byte>, at: nat, end: nat, k: nat)
    requires |a| == |b| && k <= at <= end <= |a|
    ensures (b[..k] + a[k..])[at..end] == a[at..end]
  {
    var now := b[..k] + a[k..];
    assert forall u :: at <= u < end ==> now[u] == a[u];
  }

  /** Two fields that differ in their first byte only, the second one being written over the first. */
  lemma FieldBehindFirst(a: seq<byte>, b: seq<byte>, at: nat, end: nat, k: nat)
    requires |a| == |b| && at < end <= |a| && at < k <= |a|
    requires a[at..end][1..] == b[at..end][1..]
    ensures (b[..k] + a[k..])[at..end] == b[at..end]
  {
    var now := b[..k] + a[k..];
    forall u | at <= u < end
      ensures now[u] == b[u]
    {
      if k <= u {
        assert a[u] == a[at..end][1..][u - at - 1] == b[at..end][1..][u - at - 1] == b[u];
      }
    }
  }

  /** The header while it is being written over: its range is the old one or the new one, by a single byte. */
  lemma RangeOfHeaderPrefix(l: Layout, old': seq<byte>, new': seq<byte>, k: nat)
    requires l.Valid() && |old'| == |new'| == l.header && k <= l.header
    requires l.ActiveRange(old') < 0x100 && l.ActiveRange(new') < 0x100
    ensures l.ActiveRange(new'[..k] + old'[k..]) == if k <= l.rangeAt then l.ActiveRange(old') else l.ActiveRange(new')
  {
    var now, at, end := new'[..k] + old'[k..], l.rangeAt, l.rangeAt + l.rangeWidth;
    if k <= at {
      FieldInRest(old', new', at, end, k);
    } else {
      SmallField(old'[at..end]);
      SmallField(new'[at..end]);
      FieldBehindFirst(old', new', at, end, k);
    }
  }

  lemma HeaderBeingWritten(before: seq<byte>, middle: seq<byte>, header: seq<byte>, k: nat)
    requires k <= |header| && |before| == |middle| && STORE_OFFSET + |header| <= |before|
    requires middle[..STORE_OFFSET + |header|] == before[..STORE_OFFSET + |header|]
    ensures var end := STORE_OFFSET + |header|;
            Overwritten(middle, STORE_OFFSET, header[..k])[STORE_OFFSET..end]
            == header[..k] + before[STORE_OFFSET..end][k..]
  {
    var end := STORE_OFFSET + |header|;
    var now := Overwritten(middle, STORE_OFFSET, header[..k]);
    assert now[STORE_OFFSET..end] == header[..k] + middle[..end][STORE_OFFSET + k..];
    assert before[STORE_OFFSET..end][k..] == before[..end][STORE_OFFSET + k..];
  }

  lemma DataBehindHeader(before: seq<byte>, start: nat, range: nat, entry: seq<byte>, now: seq<byte>, part: seq<byte>)
    requires start + range + |entry| <= |before| && STORE_OFFSET + |part| <= start
    requires now == Overwritten(Overwritten(before, start + range, entry), STORE_OFFSET, part)
    ensures now[start..start + range] == before[start..start + range]
    ensures now[start..start + range + |entry|] == before[start..start + range] + entry
  {
    var middle, end := Overwritten(before, start + range, entry), start + range + |entry|;
    assert now[start..end] == middle[start..end];
    assert now[start..start + range] == middle[start..start + range];
  }

  /** Accordingly, the active data are the old ones, or the old ones and the record. */
  lemma DataAtHeaderByte(l: Layout, before: seq<byte>, entry: seq<byte>, header: seq<byte>, k: nat)
    requires l.InStore(before) && |entry| == l.record && |header| == l.header && k <= l.header
    requires l.DataEnd(before) + l.record <= l.capacity
    requires l.ActiveRange(header) == l.ActiveRange(l.Header(before)) + l.record
    ensures var now := Overwritten(Overwritten(before, l.DataEnd(before), entry), STORE_OFFSET, header[..k]);
            && l.InStore(now)
            && l.ActiveRange(l.Header(now)) == l.ActiveRange(if k <= l.rangeAt then l.Header(before) else header)
            && l.ActiveData(now) == l.ActiveData(before) + if k <= l.rangeAt then [] else entry
  {
    var middle := Overwritten(before, l.DataEnd(before), entry);
    var now, start := Overwritten(middle, STORE_OFFSET, header[..k]), l.DataStart();
    HeaderBeingWritten(before, middle, header, k);
    RangeOfHeaderPrefix(l, l.Header(before), header, k);
    var range := l.ActiveRange(l.Header(before));
    DataBehindHeader(before, start, range, entry, now, header[..k]);
  }

  lemma RecordsAtHeaderByte(l: Layout, before: seq<byte>, entry: seq<byte>, header: seq<byte>, k: nat)
    requires l.WellFormed(before) && |entry| == l.record <= l.Room(before) && |header| == l.header && k <= l.header
    requires l.ActiveRange(header) == l.ActiveRange(l.Header(before)) + l.record
    ensures var now := Overwritten(Overwritten(before, l.DataEnd(before), entry), STORE_OFFSET, header[..k]);
            l.WellFormed(now) && l.Records(now) == l.Records(before) + if k <= l.rangeAt then [] else [entry]
  {
    DataAtHeaderByte(l, before, entry, header, k);
    SplitOfConcat(l.ActiveData(before), entry, l.record);
    assert l.ActiveData(before) + [] == l.ActiveData(before);
  }

  /**
   After each byte of an accepted addition, the store decodes to the old records, or,
   from the first byte of the new range on, to the old records and the new one.
   */
  lemma RecordsAtEveryByte(l: Layout, before: seq<byte>, after: seq<byte>, trace0: seq<seq<byte>>,
                           trace: seq<seq<byte>>, entry: seq<byte>, i: nat)
    requires l.WellFormed(before) && |after| == 0x100 && |entry| == l.record && l.record <= l.Room(before)
    requires IsAddition(l, before, after, trace0, trace, entry, Success) && i < l.record + l.header
    ensures |trace| == |trace0| + l.record + l.header
    ensures var now := trace[|trace0| + i];
            && l.WellFormed(now)
            && l.Records(now) == l.Records(before) + if i < l.record + l.rangeAt then [] else [entry]
  {
    WholeIsEven(l.ActiveRange(l.Header(before)), l.record);
    if i < l.record {
      InterruptedAdditionKeepsLog(l, trace0, trace, before, i);
    } else {
      var k := i - l.record + 1;
      assert trace[(|trace0| + l.record) + k - 1]
          == Overwritten(Overwritten(before, l.DataEnd(before), entry), STORE_OFFSET, l.Header(after)[..k]);
      RecordsAtHeaderByte(l, before, entry, l.Header(after), k);
    }
  }

  /**
   The store. `mem` is the memory that 8-bit offsets from the log buffer reach;
   `trace` records its contents after every single byte written.
   */
  class EarlyStorage {
    const l: Layout
    const mem: array<byte>
    ghost var trace: seq<seq<byte>>

    /** The store in memory of which only the size is known. */
    constructor (l: Layout, mem: array<byte>)
      ensures this.l == l && this.mem == mem && trace == []
    {
      this.l := l;
      this.mem := mem;
      trace := [];
    }

    /** Any memory, as long as adding a record's size to its active range does not wrap. */
    ghost predicate Addressable()
      reads mem
    {
      l.Valid() && mem.Length == 0x100 && l.ActiveRange(l.Header(mem[..])) + l.record < 0x1_0000_0000
    }

    ghost predicate Ready()
      reads mem
    {
      l.WellFormed(mem[..])
    }

    // ---------- Raw access ----------

    /** Writes one byte. The trace is for specification. */
    method MmioWrite8(at: byte, v: byte)
      requires mem.Length == 0x100
      modifies mem, this`trace
      ensures mem[..] == old(mem[..])[at := v]
      ensures trace == old(trace) + [mem[..]]
    {
      mem[at] := v;
      trace := trace + [mem[..]];
    }

    /** Reads by an 8-bit index, which goes around; a request that is not larger than the store stays inside it. */
    method RawRead(size: byte, offset: byte) returns (status: Status, buf: seq<byte>)
      requires mem.Length == 0x100 && l.Valid()
      ensures if Refused(l.capacity, size, offset) then status == InvalidParameter && buf == []
              else status == Success && |buf| == size && forall k :: 0 <= k < size ==> buf[k] == mem[Low8(offset + k)]
      ensures size <= l.capacity ==>
                if size == 0 || offset + size > l.capacity then status == InvalidParameter
                else status == Success && buf == mem[..][offset..offset + size]
    {
      buf := [];
      if Refused(l.capacity, size, offset) {
        if 0 < size <= l.capacity {
          RefusedIsBoundsCheck(l.capacity, size, offset);
        }
        return InvalidParameter, [];
      }
      RefusedIsBoundsCheck(l.capacity, size, offset);
      var i: byte := 0;
      while i < size
        invariant i <= size && |buf| == i && forall k :: 0 <= k < i ==> buf[k] == mem[Low8(offset + k)]
      {
        var index := Low8(offset + i);
        buf := buf + [mem[index]];
        i := i + 1;
      }
      status := Success;
    }

    /** Writes byte by byte; each intermediate memory is the old one with a prefix of the buffer in place. */
    method RawWrite(buf: seq<byte>, size: byte, offset: byte) returns (status: Status)
      requires mem.Length == 0x100 && l.Valid() && |buf| == size
      modifies mem, this`trace
      ensures if Refused(l.capacity, size, offset)
              then status == InvalidParameter && mem[..] == old(mem[..]) && trace == old(trace)
              else status == Success && mem[..] == Stored(old(mem[..]), offset, buf)
                   && WritesTraced(old(trace), trace, old(mem[..]), offset, buf)
      ensures size <= l.capacity ==>
                if size == 0 || offset + size > l.capacity then status == InvalidParameter
                else status == Success && mem[..] == Overwritten(old(mem[..]), offset, buf)
    {
      if 0 < size <= l.capacity {
        RefusedIsBoundsCheck(l.capacity, size, offset);
      }
      if Refused(l.capacity, size, offset) {
        return InvalidParameter;
      }
      var i: byte := 0;
      StoredIsOverwritten(mem[..], offset, []);
      assert buf[..0] == [];
      while i < size
        invariant i <= size && mem[..] == Stored(old(mem[..]), offset, buf[..i])
        invariant WritesTraced(old(trace), trace, old(mem[..]), offset, buf[..i])
      {
        var index := Low8(offset + i);
        ghost var soFar := trace;
        MmioWrite8(index, buf[i]);
        OneMoreByte(old(trace), soFar, old(mem[..]), offset, buf, i);
        i := i + 1;
      }
      assert buf[..size] == buf;
      if size <= l.capacity {
        StoredIsOverwritten(old(mem[..]), offset, buf);
      }
      status := Success;
    }

    // ---------- Access relative to the store ----------

    function GetMaxSize(): byte
      requires STORE_OFFSET <= l.capacity
    {
      Low8(l.capacity - STORE_OFFSET)
    }

    function GetMaxDataCount(): byte
      requires STORE_OFFSET <= l.capacity
    {
      Low8(GetMaxSize() - l.header)
    }

    /** The 8-bit subtractions do not wrap. */
    lemma MaxDataCountIsExact()
      requires l.Valid()
      ensures GetMaxSize() == l.capacity - STORE_OFFSET && GetMaxDataCount() == l.capacity - l.DataStart()
    {
    }

    method Read(size: byte, offset: byte) returns (status: Status, buf: seq<byte>)
      requires mem.Length == 0x100 && l.Valid()
      ensures if RefusedInStore(l.capacity, size, offset) then status == InvalidParameter && buf == []
              else status == Success && |buf| == size
                   && forall k :: 0 <= k < size ==> buf[k] == mem[Low8(STORE_OFFSET + offset + k)]
      ensures size <= l.capacity ==>
                if size == 0 || STORE_OFFSET + offset + size > l.capacity then status == InvalidParameter
                else status == Success && buf == mem[..][STORE_OFFSET + offset..STORE_OFFSET + offset + size]
    {
      MaxDataCountIsExact();
      if offset >= GetMaxSize() {
        return InvalidParameter, [];
      }
      SmallIsLow8(STORE_OFFSET + offset);
      status, buf := RawRead(size, Low8(STORE_OFFSET + offset));
    }

    method Write(buf: seq<byte>, size: byte, offset: byte) returns (status: Status)
      requires mem.Length == 0x100 && l.Valid() && |buf| == size
      modifies mem, this`trace
      ensures if RefusedInStore(l.capacity, size, offset)
              then status == InvalidParameter && mem[..] == old(mem[..]) && trace == old(trace)
              else status == Success && mem[..] == Stored(old(mem[..]), Low8(STORE_OFFSET + offset), buf)
                   && WritesTraced(old(trace), trace, old(mem[..]), Low8(STORE_OFFSET + offset), buf)
      ensures size <= l.capacity ==>
                if size == 0 || STORE_OFFSET + offset + size > l.capacity then status == InvalidParameter
                else status == Success && mem[..] == Overwritten(old(mem[..]), STORE_OFFSET + offset, buf)
    {
      MaxDataCountIsExact();
      if offset >= GetMaxSize() {
        return InvalidParameter;
      }
      SmallIsLow8(STORE_OFFSET + offset);
      status := RawWrite(buf, size, Low8(STORE_OFFSET + offset));
    }

    // ---------- The log ----------

    /** `MsWheaESFindSlot`: where the next record goes, if it fits. */
    method FindSlot(size: byte) returns (status: Status, offset: byte)
      requires mem.Length == 0x100 && l.Valid() && l.ActiveRange(l.Header(mem[..])) + size < 0x1_0000_0000
      ensures if l.DataEnd(mem[..]) + size <= l.capacity
              then status == Success && offset == l.ActiveRange(l.Header(mem[..]))
              else status == OutOfResources && offset == 0
    {
      var readStatus, header := Read(l.header, 0);
      assert header == l.Header(mem[..]);
      MaxDataCountIsExact();
      if l.ActiveRange(header) + size <= GetMaxDataCount() {
        return Success, Low8(l.ActiveRange(header));
      }
      return OutOfResources, 0;
    }

    /** The word at an index of the data region, if it is in the store. */
    method ReadWord(index: nat, ghost data: seq<byte>) returns (status: Status, word: seq<byte>)
      requires mem.Length == 0x100 && l.Valid() && data == mem[..][l.DataStart()..]
      requires l.DataStart() + index <= l.capacity
      ensures if l.DataStart() + index + 2 > l.capacity then status == InvalidParameter
              else status == Success && word == data[index..index + 2]
    {
      SmallIsLow8(l.header + index);
      status, word := Read(2, Low8(l.header + index));
      if status == Success {
        SliceOfTail(mem[..], l.DataStart(), index, 2);
      }
    }

    /** One pass of the summing loop, over the word `n`. */
    method AddWord(index: nat, sum: nat, ghost n: nat, ghost sum0: nat, ghost data: seq<byte>)
      returns (status: Status, next: nat)
      requires mem.Length == 0x100 && l.Valid() && data == mem[..][l.DataStart()..]
      requires index == 2 * n && l.DataStart() + index <= l.capacity && sum == SumOfWords(sum0, data, n)
      ensures if l.DataStart() + index + 2 > l.capacity then status == InvalidParameter
              else status == Success && next == SumOfWords(sum0, data, n + 1)
    {
      var word;
      next := sum;
      status, word := ReadWord(index, data);
      if status == Success {
        SumStep(sum0, data, n);
        next := (sum + WordOf(word[0], word[1])) % 0x1_0000;
      }
    }

    /** The summing loop of `MsWheaESCalculateChecksum16`, over the first `range` bytes of the data region. */
    method SumData(range: nat, sum0: nat, ghost data: seq<byte>) returns (status: Status, sum: nat)
      requires mem.Length == 0x100 && l.Valid() && range % 2 == 0 && range <= l.capacity - STORE_OFFSET
      requires sum0 < 0x1_0000 && data == mem[..][l.DataStart()..]
      ensures if l.DataStart() + range > l.capacity then status == InvalidParameter
              else status == Success && sum == (sum0 + WordSum(data[..range])) % 0x1_0000
    {
      sum, status := sum0, Success;
      var index: nat := 0;
      ghost var n: nat := 0;
      assert sum == SumOfWords(sum0, data, 0);
      while index < range
        invariant index == 2 * n <= range && l.DataStart() + index <= l.capacity
        invariant sum == SumOfWords(sum0, data, n) && status == Success
      {
        status, sum := AddWord(index, sum, n, sum0, data);
        if status != Success {
          return;
        }
        index, n := index + 2, n + 1;
      }
    }

    /**
     `MsWheaESCalculateChecksum16` for a header not yet written: the word that makes
     header and active range sum to zero. The header comes back as it was. Before an
     error the output is left as it was, or holds the header's own checksum.
     */
    method CalculateChecksum16(header0: seq<byte>, checksum0: nat)
      returns (status: Status, header: seq<byte>, checksum: nat)
      requires mem.Length == 0x100 && l.Valid() && |header0| == l.header && checksum0 < 0x1_0000
      ensures header == header0 && checksum < 0x1_0000
      ensures var range := l.ActiveRange(header0);
              if range > l.capacity - STORE_OFFSET || range % 2 != 0 then
                status == BadBufferSize && checksum == checksum0
              else if l.DataStart() + range > l.capacity then
                status == InvalidParameter && checksum == l.Checksum(header0)
              else status == Success && SumsToZero(l.WithChecksum(header0, checksum), mem[..][l.DataStart()..][..range])
    {
      header, checksum := header0, checksum0;
      var range := l.ActiveRange(header);
      if range > GetMaxSize() || range % 2 != 0 {
        return BadBufferSize, header, checksum;
      }
      checksum := l.Checksum(header);
      header := l.WithChecksum(header, 0);
      var sum := CalculateSum16(header);
      header := l.WithChecksum(header, checksum);
      WithChecksumTwice(l, header0, 0, checksum);
      WithOwnChecksum(l, header0);
      status, sum := SumData(range, sum, mem[..][l.DataStart()..]);
      if status != Success {
        return;
      }
      checksum := (0x1_0000 - sum) % 0x1_0000;
      NewHeaderSumsToZero(l, header0, mem[..][l.DataStart()..][..range], checksum);
    }

    /** The first half of an addition: the record's bytes behind the active range. */
    method WriteRecord(entry: seq<byte>) returns (status: Status)
      requires Addressable() && |entry| == l.record
      modifies mem, this`trace
      ensures l.DataEnd(old(mem[..])) + l.record > l.capacity ==>
                status == OutOfResources && mem[..] == old(mem[..]) && trace == old(trace)
      ensures l.DataEnd(old(mem[..])) + l.record <= l.capacity ==>
                && status == Success && l.InStore(mem[..]) && SameLog(l, old(mem[..]), mem[..])
                && mem[..] == Overwritten(old(mem[..]), l.DataEnd(old(mem[..])), entry)
                && |trace| == |old(trace)| + l.record && OldLogSurvives(l, old(trace), trace, old(mem[..]))
    {
      var offset;
      status, offset := FindSlot(l.record);
      if status != Success {
        return;
      }
      var place := Low8(l.header + offset);
      assert STORE_OFFSET + place == l.DataEnd(mem[..]) by { SmallIsLow8(l.header + offset); }
      status := Write(entry, l.record, place);
      SmallIsLow8(STORE_OFFSET + place);
      RecordWriteKeepsLog(l, old(trace), trace, old(mem[..]), entry);
      PartialRecordKeepsLog(l, old(mem[..]), entry);
    }

    /** The header in local memory: the longer range, then the checksum for it, unless the range is odd. */
    method ExtendedHeader(header0: seq<byte>) returns (status: Status, header: seq<byte>)
      requires l.InStore(mem[..]) && l.record <= l.Room(mem[..]) && header0 == l.Header(mem[..])
      ensures |header| == l.header && status == if l.ActiveRange(header0) % 2 != 0 then BadBufferSize else Success
      ensures status == Success ==>
                && IsExtendedHeader(l, header0, header)
                && SumsToZero(header, mem[..][l.DataStart()..][..l.ActiveRange(header0) + l.record])
    {
      ghost var range := l.ActiveRange(header0);
      header := l.WithActiveRange(header0, l.ActiveRange(header0) + l.record);
      RangeOfUpdatedHeader(l, header0, range + l.record, 0);
      assert l.ActiveRange(header) % 2 == range % 2 && l.DataStart() + l.ActiveRange(header) <= l.capacity;
      var checksum: nat :| checksum < 0x1_0000;
      status, header, checksum := CalculateChecksum16(header, checksum);
      if status != Success {
        return;
      }
      ChecksumAddsToSum(l, header, checksum);
      header := l.WithChecksum(header, checksum);
      RangeOfUpdatedHeader(l, header0, range + l.record, checksum);
    }

    /** The second half: the extended header replaces the old one and is read back; an odd range is an error. */
    method RewriteHeader() returns (status: Status, ghost written: seq<byte>)
      requires l.InStore(mem[..]) && l.record <= l.Room(mem[..])
      modifies mem, this`trace
      ensures l.ActiveRange(l.Header(old(mem[..]))) % 2 != 0 ==>
                status == BadBufferSize && mem[..] == old(mem[..]) && trace == old(trace)
      ensures l.ActiveRange(l.Header(old(mem[..]))) % 2 == 0 ==>
                var range := l.ActiveRange(l.Header(old(mem[..]))) + l.record;
                && status == Success && |written| == l.header
                && mem[..] == Overwritten(old(mem[..]), STORE_OFFSET, written)
                && WritesTraced(old(trace), trace, old(mem[..]), STORE_OFFSET, written)
                && IsExtendedHeader(l, l.Header(old(mem[..])), written)
                && SumsToZero(written, old(mem[..])[l.DataStart()..][..range])
    {
      var header;
      status, header := Read(l.header, 0);
      assert header == l.Header(mem[..]);
      status, header := ExtendedHeader(header);
      written := header;
      if status != Success {
        return;
      }
      status := Write(header, l.header, 0);
      status, header := Read(l.header, 0);
    }

    /** `MsWheaESAddRecordV0Internal`, for any header. */
    method AddRecordV0Internal(entry: seq<byte>) returns (status: Status)
      requires Addressable() && |entry| == l.record
      modifies mem, this`trace
      ensures IsAddition(l, old(mem[..]), mem[..], old(trace), trace, entry, status)
    {
      status := WriteRecord(entry);
      if status != Success {
        return;
      }
      ghost var middle, recorded := mem[..], trace;
      ghost var written;
      status, written := RewriteHeader();
      if status != Success {
        return;
      }
      AdditionIsComplete(l, old(mem[..]), middle, written, mem[..], old(trace), recorded, trace, entry);
    }
  }

  // ---------- Whole runs ----------

  /**
   After `seen` additions the store holds the old records and then the accepted ones,
   which are the first so many; the rest was refused for want of room.
   */
  ghost predicate HoldsAccepted(l: Layout, before: seq<byte>, now: seq<byte>, entries: seq<seq<byte>>,
                                accepted: nat, seen: nat)
    requires l.WellFormed(before)
  {
    && accepted <= seen <= |entries| && l.WellFormed(now)
    && l.Records(now) == l.Records(before) + entries[..accepted]
    && (accepted > 0 ==> l.ChecksumValid(now))
    && (accepted == 0 ==> now == before)
    && (accepted < seen ==> l.Room(now) < l.record)
  }

  lemma OneMoreSeen(l: Layout, before: seq<byte>, now: seq<byte>, next: seq<byte>, entries: seq<seq<byte>>,
                    accepted: nat, seen: nat)
    requires l.WellFormed(before) && seen < |entries|
    requires HoldsAccepted(l, before, now, entries, accepted, seen)
    requires if l.Room(now) < l.record then next == now else LogGrewBy(l, now, next, entries[seen])
    ensures HoldsAccepted(l, before, next, entries, if l.Room(now) < l.record then accepted else accepted + 1, seen + 1)
  {
    if l.Room(now) >= l.record {
      assert entries[..accepted + 1] == entries[..accepted] + [entries[accepted]];
    }
  }

  /** The store decodes to the old records and some of the entries, in order from the first. */
  ghost predicate HoldsPrefix(l: Layout, before: seq<byte>, now: seq<byte>, entries: seq<seq<byte>>, n: nat)
    requires l.WellFormed(before)
  {
    n <= |entries| && l.WellFormed(now) && l.Records(now) == l.Records(before) + entries[..n]
  }

  ghost predicate HoldsSomePrefix(l: Layout, before: seq<byte>, now: seq<byte>, entries: seq<seq<byte>>, most: nat)
    requires l.WellFormed(before)
  {
    exists n: nat :: n <= most && HoldsPrefix(l, before, now, entries, n)
  }

  /** So it does at every byte written since `trace0`, with at most `most` of the entries. */
  ghost predicate AlwaysHoldsPrefix(l: Layout, before: seq<byte>, trace0: seq<seq<byte>>, trace: seq<seq<byte>>,
                                    entries: seq<seq<byte>>, most: nat)
    requires l.WellFormed(before)
  {
    |trace0| <= |trace| &&
    forall i :: |trace0| <= i < |trace| ==> HoldsSomePrefix(l, before, trace[i], entries, most)
  }

  /** At each byte of an accepted addition to a store with the first `n` entries. */
  lemma PrefixAtByte(l: Layout, before: seq<byte>, now: seq<byte>, after: seq<byte>, trace: seq<seq<byte>>,
                     trace': seq<seq<byte>>, entries: seq<seq<byte>>, n: nat, i: nat)
    returns (m: nat)
    requires l.WellFormed(before) && HoldsPrefix(l, before, now, entries, n) && n < |entries|
    requires |entries[n]| == l.record <= l.Room(now) && |after| == 0x100
    requires IsAddition(l, now, after, trace, trace', entries[n], Success) && i < l.record + l.header
    ensures |trace'| == |trace| + l.record + l.header
    ensures m <= n + 1 && HoldsPrefix(l, before, trace'[|trace| + i], entries, m)
  {
    RecordsAtEveryByte(l, now, after, trace, trace', entries[n], i);
    m := if i < l.record + l.rangeAt then n else n + 1;
    assert entries[..n + 1] == entries[..n] + [entries[n]];
  }

  lemma AdditionExtendsTrace(l: Layout, now: seq<byte>, after: seq<byte>, trace: seq<seq<byte>>,
                             trace': seq<seq<byte>>, entry: seq<byte>)
    requires l.WellFormed(now) && |after| == 0x100 && |entry| == l.record <= l.Room(now)
    requires IsAddition(l, now, after, trace, trace', entry, Success)
    ensures |trace'| == |trace| + l.record + l.header && trace'[..|trace|] == trace
  {
    RecordsAtEveryByte(l, now, after, trace, trace', entry, 0);
  }

  /** So an accepted addition keeps up what holds at every byte. */
  lemma AdditionHoldsPrefixes(l: Layout, before: seq<byte>, trace0: seq<seq<byte>>, now: seq<byte>,
                              trace: seq<seq<byte>>, after: seq<byte>, trace': seq<seq<byte>>,
                              entries: seq<seq<byte>>, n: nat)
    requires l.WellFormed(before) && HoldsPrefix(l, before, now, entries, n) && n < |entries|
    requires |entries[n]| == l.record <= l.Room(now) && |after| == 0x100
    requires IsAddition(l, now, after, trace, trace', entries[n], Success)
    requires AlwaysHoldsPrefix(l, before, trace0, trace, entries, n)
    ensures AlwaysHoldsPrefix(l, before, trace0, trace', entries, n + 1)
  {
    AdditionExtendsTrace(l, now, after, trace, trace', entries[n]);
    forall i | |trace0| <= i < |trace'|
      ensures HoldsSomePrefix(l, before, trace'[i], entries, n + 1)
    {
      if i < |trace| {
        assert trace'[i] == trace'[..|trace|][i] == trace[i];
        assert HoldsSomePrefix(l, before, trace[i], entries, n);
      } else {
        var m := PrefixAtByte(l, before, now, after, trace, trace', entries, n, i - |trace|);
      }
    }
  }

  /** Any sequence of additions; interrupted at any byte, it leaves the first so many of them. */
  method AddRecords(store: EarlyStorage, entries: seq<seq<byte>>) returns (accepted: nat)
    requires store.Ready() && forall e :: e in entries ==> |e| == store.l.record
    modifies store.mem, store`trace
    ensures store.Ready()
    ensures HoldsAccepted(store.l, old(store.mem[..]), store.mem[..], entries, accepted, |entries|)
    ensures AlwaysHoldsPrefix(store.l, old(store.mem[..]), old(store.trace), store.trace, entries, accepted)
  {
    accepted := 0;
    ghost var before, start := store.mem[..], store.trace;
    var i := 0;
    while i < |entries|
      invariant i <= |entries| && HoldsAccepted(store.l, before, store.mem[..], entries, accepted, i)
      invariant AlwaysHoldsPrefix(store.l, before, start, store.trace, entries, accepted)
    {
      ghost var now := store.mem[..];
      assert entries[i] in entries;
      ghost var trace0 := store.trace;
      var status := store.AddRecordV0Internal(entries[i]);
      AdditionToLog(store.l, now, store.mem[..], trace0, store.trace, entries[i], status);
      OneMoreSeen(store.l, before, now, store.mem[..], entries, accepted, i);
      if status == Success {
        AdditionHoldsPrefixes(store.l, before, start, now, trace0, store.mem[..], store.trace, entries, accepted);
      }
      accepted := if status == Success then accepted + 1 else accepted;
      i := i + 1;
    }
  }

  lemma SizeOfRecords(l: Layout, mem: seq<byte>)
    requires l.WellFormed(mem)
    ensures l.ActiveRange(l.Header(mem)) == |l.Records(mem)| * l.record
  {
    SizeOfSplit(l.ActiveData(mem), l.record);
  }

  /** From an empty log on, the store holds exactly the records accepted, which are as many as fit. */
  method RecordFromEmpty(l: Layout, mem: array<byte>, entries: seq<seq<byte>>)
    returns (accepted: nat, ghost trace: seq<seq<byte>>)
    requires l.WellFormed(mem[..]) && l.ActiveRange(l.Header(mem[..])) == 0
    requires forall e :: e in entries ==> |e| == l.record
    modifies mem
    ensures l.WellFormed(mem[..]) && accepted <= |entries| && l.Records(mem[..]) == entries[..accepted]
    ensures accepted > 0 ==> l.ChecksumValid(mem[..])
    ensures l.DataStart() + accepted * l.record <= l.capacity
    ensures accepted < |entries| ==> l.DataStart() + accepted * l.record + l.record > l.capacity
    ensures AlwaysHoldsPrefix(l, old(mem[..]), [], trace, entries, accepted)
  {
    ghost var before := mem[..];
    assert l.ActiveData(before) == [] && l.Records(before) == [];
    var store := new EarlyStorage(l, mem);
    accepted := AddRecords(store, entries);
    trace := store.trace;
    SizeOfRecords(l, mem[..]);
  }
}
