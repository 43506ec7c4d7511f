/** The string set of an SMBIOS structure, written by SmBiosTableDxe.c and read by FrontPage.c. */
module SmbiosStrings {
  import opened MachineWord
  import opened Wrappers

  /** The characters of a C string, without the terminating null. */
  type CString = s: seq<byte> | 0 !in s

  // ---------- The format ----------

  /** Each string with its null. */
  function Strings(pack: seq<CString>): seq<byte>
  {
    if pack == [] then [] else Strings(pack[..|pack| - 1]) + (pack[|pack| - 1] + [0])
  }

  /** The string set: the strings and a further null, or two nulls when there is no string. */
  function Encoded(pack: seq<CString>): seq<byte>
  {
    Strings(pack) + (if pack == [] then [0, 0] else [0])
  }

  /** Where the `j`-th string starts. */
  function Offset(pack: seq<CString>, j: nat): nat
    requires j <= |pack|
  {
    if j == 0 then 0 else Offset(pack, j - 1) + |pack[j - 1]| + 1
  }

  lemma {:induction false} OffsetGrows(pack: seq<CString>, j: nat)
    requires j <= |pack|
    ensures Offset(pack, j) >= j
  {
    if j == 0 {
    } else {
      OffsetGrows(pack, j - 1);
    }
  }

  lemma {:induction false} OffsetMonotone(pack: seq<CString>, i: nat, j: nat)
    requires i <= j <= |pack|
    ensures Offset(pack, i) + (j - i) <= Offset(pack, j)
    decreases j
  {
    if i == j {
    } else {
      OffsetMonotone(pack, i, j - 1);
    }
  }

  lemma {:induction false} StringsOfPrefix(pack: seq<CString>, j: nat)
    requires j <= |pack|
    ensures |Strings(pack[..j])| == Offset(pack, j)
  {
    if j == 0 {
    } else {
      StringsOfPrefix(pack, j - 1);
      assert pack[..j][..j - 1] == pack[..j - 1];
    }
  }

  lemma {:induction false} StringsHavePrefix(pack: seq<CString>, j: nat)
    requires j <= |pack|
    ensures Strings(pack[..j]) <= Strings(pack)
    decreases |pack| - j
  {
    if j == |pack| {
      assert pack[..j] == pack;
    } else {
      StringsHavePrefix(pack, j + 1);
      assert pack[..j + 1][..j] == pack[..j];
    }
  }

  lemma StringSlice(pack: seq<CString>, j: nat)
    requires j < |pack|
    ensures var o := Offset(pack, j);
            && o + |pack[j]| + 1 == Offset(pack, j + 1) <= |Strings(pack)|
            && Strings(pack)[o..o + |pack[j]| + 1] == pack[j] + [0]
  {
    StringsOfPrefix(pack, j);
    StringsOfPrefix(pack, j + 1);
    StringsHavePrefix(pack, j + 1);
    assert pack[..j + 1][..j] == pack[..j];
    assert Strings(pack[..j + 1]) == Strings(pack[..j]) + (pack[j] + [0]);
  }

  /** The `j`-th string and its null stand at its offset, and the next string follows. */
  lemma StringAt(pack: seq<CString>, j: nat)
    requires j < |pack|
    ensures var o := Offset(pack, j); var all := Encoded(pack);
            && o + |pack[j]| + 1 == Offset(pack, j + 1) < |all|
            && all[o..o + |pack[j]| + 1] == pack[j] + [0]
            && (all[Offset(pack, j + 1)] == 0 <==> j + 1 == |pack| || pack[j + 1] == [])
  {
    StringSlice(pack, j);
    StringsOfPrefix(pack, |pack|);
    assert pack[..|pack|] == pack;
    if j + 1 < |pack| {
      StringSlice(pack, j + 1);
      var next := pack[j + 1];
      assert Strings(pack)[Offset(pack, j + 1)] == (next + [0])[0];
      assert next != [] ==> next[0] in next;
    }
  }

  /** Two nulls in a row at an offset. */
  predicate DoubleNullAt(s: seq<byte>, o: nat)
  {
    o + 1 < |s| && s[o] == 0 && s[o + 1] == 0
  }

  lemma NoDoubleNullInString(pack: seq<CString>, j: nat, o: nat)
    requires j < |pack| && pack[j] != [] && Offset(pack, j) <= o < Offset(pack, j + 1)
    requires j + 1 < |pack| ==> pack[j + 1] != []
    ensures Offset(pack, j + 1) <= |Strings(pack)|
    ensures DoubleNullAt(Encoded(pack), o) <==> o + 1 == Offset(pack, j + 1) && j + 1 == |pack|
  {
    StringAt(pack, j);
    var at, s := Offset(pack, j), pack[j] + [0];
    var all := Encoded(pack);
    assert all[at..at + |s|] == s;
    assert all[o] == s[o - at];
    if o + 1 < at + |s| {
      assert all[o] == pack[j][o - at] && pack[j][o - at] in pack[j];
    }
  }

  lemma {:induction false} StringOfOffset(pack: seq<CString>, n: nat, o: nat) returns (j: nat)
    requires n <= |pack| && o < Offset(pack, n)
    ensures j < n && Offset(pack, j) <= o < Offset(pack, j + 1)
  {
    if o < Offset(pack, n - 1) {
      j := StringOfOffset(pack, n - 1, o);
    } else {
      j := n - 1;
    }
  }

  /** The set ends with the first double null, when no string is empty. */
  lemma FirstDoubleNullIsLast(pack: seq<CString>, o: nat)
    requires forall s :: s in pack ==> s != []
    ensures DoubleNullAt(Encoded(pack), o) <==> o + 2 == |Encoded(pack)|
  {
    StringsOfPrefix(pack, |pack|);
    assert pack[..|pack|] == pack;
    if pack != [] && o < |Strings(pack)| {
      var j := StringOfOffset(pack, |pack|, o);
      assert forall k :: 0 <= k < |pack| ==> pack[k] in pack;
      NoDoubleNullInString(pack, j, o);
      if j + 1 < |pack| {
        StringAt(pack, |pack| - 1);
        OffsetMonotone(pack, j + 1, |pack| - 1);
      }
    }
  }

  // ---------- What a reader can get ----------

  /**
   The `j`-th string can be read: it is not empty, and neither is any string between
   the first and it, since an empty one looks like the end of the set.
   */
  predicate Readable(pack: seq<CString>, j: nat)
  {
    j < |pack| && pack[j] != [] && forall k :: 1 <= k < j ==> pack[k] != []
  }

  /** The result of a lookup, numbered from one; number 0 stands for no string. */
  function Lookup(pack: seq<CString>, index: byte): Option<seq<byte>>
  {
    if index == 0 then Some([])
    else if Readable(pack, index - 1) then Some(pack[index - 1])
    else None
  }

  /** Every string number gives its string, and every larger one gives nothing. */
  ghost predicate ReadsBack(pack: seq<CString>)
  {
    forall index: byte :: 1 <= index ==>
      Lookup(pack, index) == if index <= |pack| then Some(pack[index - 1]) else None
  }

  /** A pack reads back exactly when none of its first 255 strings is empty. */
  lemma ReadsBackIffNoEmptyString(pack: seq<CString>)
    ensures ReadsBack(pack) <==> forall j :: 0 <= j < |pack| && j < 255 ==> pack[j] != []
  {
    forall j | 0 <= j < |pack| && j < 255 && ReadsBack(pack)
      ensures pack[j] != []
    {
      var index: byte := j + 1;
      assert Lookup(pack, index).Some?;
    }
  }

  /** An empty string is never found, and one at the front hides none of the others. */
  lemma EmptyStrings(pack: seq<CString>, index: byte)
    requires 1 <= index <= |pack|
    ensures pack[index - 1] == [] ==> Lookup(pack, index) == None
    ensures pack[index - 1] != [] && (forall k :: 1 <= k < |pack| ==> pack[k] != []) ==>
              Lookup(pack, index) == Some(pack[index - 1])
  {
  }

  /** An empty string in the middle hides the one behind it. */
  lemma EmptyStringHidesNext()
    ensures Lookup([[65], [], [66]], 3) == None && !ReadsBack([[65], [], [66]])
  {
    var pack: seq<CString> := [[65], [], [66]];
    assert pack[1] == [];
    assert Lookup(pack, 3) == None;
  }

  // ---------- The library's string size ----------

  /** Stands for the library function that counts a string's characters and its null. */
  method AsciiStrSize(mem: array<byte>, at: nat, ghost s: CString) returns (size: nat)
    requires at + |s| < mem.Length && mem[at..at + |s| + 1] == s + [0]
    ensures size == |s| + 1
  {
    assert forall k :: 0 <= k < |s| ==> s[k] in s;
    var i := 0;
    while mem[at + i] != 0
      invariant 0 <= i <= |s|
      decreases |s| - i
    {
      assert mem[at + i] == mem[at..at + |s| + 1][i] == (s + [0])[i];
      i := i + 1;
    }
    assert mem[at + i] == mem[at..at + |s| + 1][i] == (s + [0])[i];
    size := i + 1;
  }

  // ---------- The writer ----------

  /** The strings that the writer is asked to write. */
  function Given(pack: Option<seq<CString>>): seq<CString>
  {
    if pack.Some? then pack.value else []
  }

  /** The size computed for the record: the template, the strings with their nulls, and the end of the set. */
  method RecordSize(templateLength: nat, pack: Option<seq<CString>>) returns (size: nat)
    ensures size == templateLength + |Encoded(Given(pack))|
  {
    size := templateLength;
    if pack.None? {
      size := size + 2;
      return;
    }
    var strings := pack.value;
    var index := 0;
    while index < |strings|
      invariant index <= |strings| && size == templateLength + Offset(strings, index)
    {
      size := size + (|strings[index]| + 1);
      index := index + 1;
    }
    StringsOfPrefix(strings, |strings|);
    assert strings[..|strings|] == strings;
    if |strings| == 0 {
      size := size + 1;
    }
    size := size + 1;
  }

  lemma JoinSlices(mem: array<byte>, at: nat, n: nat)
    requires at + n <= mem.Length
    ensures mem[..at + n] == mem[..at] + mem[at..at + n]
  {
  }

  /** Stands for the library's memory copy. */
  method CopyMem(mem: array<byte>, at: nat, buf: seq<byte>)
    requires at + |buf| <= mem.Length
    modifies mem
    ensures mem[..at] == old(mem[..at]) && mem[at..at + |buf|] == buf
    ensures forall i :: at + |buf| <= i < mem.Length ==> mem[i] == old(mem[i])
  {
    var i := 0;
    while i < |buf|
      invariant 0 <= i <= |buf|
      invariant mem[..at] == old(mem[..at]) && mem[at..at + i] == buf[..i]
      invariant forall k :: at + i <= k < mem.Length ==> mem[k] == old(mem[k])
    {
      mem[at + i] := buf[i];
      i := i + 1;
    }
  }

  lemma OneMoreString(template: seq<byte>, pack: seq<CString>, index: nat)
    requires index < |pack|
    ensures template + Strings(pack[..index + 1]) == (template + Strings(pack[..index])) + (pack[index] + [0])
  {
    assert pack[..index + 1][..index] == pack[..index];
  }

  /** The loop that appends the strings from `str0` on and returns the advanced pointer. */
  method AppendStrings(record: array<byte>, str0: nat, pack: seq<CString>, ghost template: seq<byte>) returns (str: nat)
    requires record.Length > str0 + |Strings(pack)| && record[..str0] == template
    requires forall i :: str0 <= i < record.Length ==> record[i] == 0
    modifies record
    ensures str == str0 + |Strings(pack)| && record[..str] == template + Strings(pack)
    ensures forall i :: str <= i < record.Length ==> record[i] == 0
  {
    str := str0;
    var index := 0;
    while index < |pack|
      invariant index <= |pack| && str == str0 + Offset(pack, index) && str < record.Length
      invariant record[..str] == template + Strings(pack[..index])
      invariant forall i :: str <= i < record.Length ==> record[i] == 0
    {
      StringAt(pack, index);
      OneMoreString(template, pack, index);
      CopyMem(record, str, pack[index] + [0]);
      JoinSlices(record, str, |pack[index]| + 1);
      str := str + (|pack[index]| + 1);
      index := index + 1;
    }
    assert pack[..|pack|] == pack;
    StringsOfPrefix(pack, |pack|);
  }

  /** Appending what a null pack seems to hold fits exactly when that is nothing or an empty string. */
  lemma NullPackFits(atNull: seq<CString>)
    ensures |Strings(atNull)| + 1 <= |Encoded(Given(None))| <==> atNull == [] || atNull == [[]]
  {
    StringsOfPrefix(atNull, |atNull|);
    assert atNull[..|atNull|] == atNull;
    if |atNull| > 1 {
      OffsetGrows(atNull, |atNull|);
    } else if |atNull| == 1 {
      assert Offset(atNull, 1) == |atNull[0]| + 1;
      assert atNull == [atNull[0]];
    }
  }

  /** The nulls behind the appended strings complete the string set. */
  lemma NullsComplete(strings: seq<CString>, pack: Option<seq<CString>>, nulls: seq<byte>)
    requires if pack.Some? then strings == pack.value else strings == [] || strings == [[]]
    requires |Strings(strings)| + |nulls| == |Encoded(Given(pack))| && forall i :: 0 <= i < |nulls| ==> nulls[i] == 0
    ensures Strings(strings) + nulls == Encoded(Given(pack))
  {
    if strings == [[]] {
      assert strings[..0] == [];
      assert Strings(strings) == [0];
    }
  }

  lemma RestIsNull(mem: array<byte>, at: nat)
    requires at <= mem.Length && forall i :: at <= i < mem.Length ==> mem[i] == 0
    ensures |mem[at..]| == mem.Length - at && forall i :: 0 <= i < |mem[at..]| ==> mem[at..][i] == 0
  {
  }

  /**
   `LogSmbiosData` up to the finished record: the template, whose second byte is its
   length, followed by the string set. A null pack is counted as an empty one, but the
   append loop reads through it all the same: `atNull` is what it finds there.
   */
  method LogSmbiosData(template: seq<byte>, pack: Option<seq<CString>>, atNull: seq<CString>)
    returns (record: array<byte>)
    requires |template| >= 4 && template[1] == |template|
    requires pack.None? ==> atNull == [] || atNull == [[]]
    ensures fresh(record) && record[..] == template + Encoded(Given(pack))
  {
    NullPackFits(atNull);
    var size := RecordSize(template[1], pack);
    record := new byte[size](_ => 0);
    CopyMem(record, 0, template);
    assert record[..|template|] == template;
    var strings := if pack.Some? then pack.value else atNull;
    var str := AppendStrings(record, record[1], strings, template);
    record[str] := 0;
    assert record[..] == record[..str] + record[str..];
    RestIsNull(record, str);
    assert |Strings(strings)| + |record[str..]| == |Encoded(Given(pack))|;
    NullsComplete(strings, pack, record[str..]);
    assert record[..] == template + (Strings(strings) + record[str..]);
  }

  // ---------- The reader ----------

  /** Memory from `start` on begins with the string set. */
  ghost predicate HoldsStrings(mem: array<byte>, start: nat, pack: seq<CString>)
    reads mem
  {
    start <= mem.Length && Encoded(pack) <= mem[start..]
  }

  /** The string examined after `j` others; the empty pack looks like one empty string. */
  ghost function Examined(pack: seq<CString>, j: nat): CString
    requires j < |pack| || pack == []
  {
    if pack == [] then [] else pack[j]
  }

  lemma StringInMemory(mem: array<byte>, start: nat, pack: seq<CString>, j: nat)
    requires HoldsStrings(mem, start, pack) && (j < |pack| || (j == 0 && pack == []))
    ensures var at, s := start + Offset(pack, if pack == [] then 0 else j), Examined(pack, j);
            && at + |s| + 1 < mem.Length
            && mem[at..at + |s| + 1] == s + [0]
            && (mem[at + |s| + 1] == 0 <==> j + 1 >= |pack| || pack[j + 1] == [])
  {
    var all := Encoded(pack);
    assert mem[start..start + |all|] == mem[start..][..|all|] == all;
    if pack == [] {
      assert all == [0, 0];
      assert mem[start] == all[0] && mem[start + 1] == all[1];
    } else {
      StringAt(pack, j);
      var o, n := Offset(pack, j), |pack[j]| + 1;
      assert mem[start + o..start + o + n] == all[o..o + n];
      assert mem[start + o + n] == all[o + n];
    }
  }

  /** Where the scan stops tells what the lookup gives. */
  lemma ScanResult(pack: seq<CString>, index: byte, j: nat, left: nat)
    requires 1 <= index && index == j + 1 + left && (j < |pack| || (j == 0 && pack == []))
    requires forall k :: 1 <= k <= j ==> pack[k] != []
    requires left != 0 ==> j + 1 >= |pack| || pack[j + 1] == []
    ensures Lookup(pack, index) == if left != 0 || Examined(pack, j) == [] then None else Some(Examined(pack, j))
  {
    if left != 0 && j + 1 < |pack| {
      assert !Readable(pack, index - 1);
    }
  }

  /** `GetOptionalStringByIndex` on memory that holds a string set from `start` on. */
  method GetOptionalStringByIndex(mem: array<byte>, start: nat, index0: byte, ghost pack: seq<CString>)
    returns (r: Option<seq<byte>>)
    requires HoldsStrings(mem, start, pack)
    ensures r == Lookup(pack, index0)
    ensures index0 == 0 ==> r == Some([])
  {
    if index0 == 0 {
      return Some([]);
    }
    var index, at, size := index0, start, 0;
    ghost var j: nat := 0;
    while true
      invariant 1 <= index == index0 - j && (j > 0 ==> j < |pack|)
      invariant at + size == start + (if j == 0 then 0 else Offset(pack, j))
      invariant forall k :: 1 <= k <= j ==> pack[k] != []
      decreases index
    {
      index := index - 1;
      at := at + size;
      StringInMemory(mem, start, pack, j);
      size := AsciiStrSize(mem, at, Examined(pack, j));
      if !(mem[at + size] != 0 && index != 0) {
        break;
      }
      j := j + 1;
    }
    ScanResult(pack, index0, j, index);
    if index != 0 || size == 1 {
      return None;
    }
    assert mem[at..at + size - 1] == mem[at..at + size][..size - 1];
    r := Some(mem[at..at + size - 1]);
  }

  /**
   Round trip: from the record the writer built, every string number gives its string
   and every larger one nothing, for any pack without empty strings.
   */
  method WriteThenRead(template: seq<byte>, pack: seq<CString>, index: byte) returns (r: Option<seq<byte>>)
    requires |template| >= 4 && template[1] == |template|
    requires forall s :: s in pack ==> s != []
    ensures r == if index == 0 then Some([]) else if index <= |pack| then Some(pack[index - 1]) else None
  {
    var record := LogSmbiosData(template, Some(pack), []);
    assert record[|template|..] == record[..][|template|..] == Encoded(pack);
    assert forall j :: 0 <= j < |pack| ==> pack[j] in pack;
    ReadsBackIffNoEmptyString(pack);
    assert ReadsBack(pack);
    r := GetOptionalStringByIndex(record, |template|, index, pack);
  }
}
