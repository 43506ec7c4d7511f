/** The entry point `memmem` of Memory.c. */
module Memmem {
  import opened MachineWord
  import opened Wrappers
  import opened Words
  import opened Shifts
  import opened TwoWay
  import opened ShortNeedles

  /** Stands for the byte scan of the base memory library, to which `memchr` is defined. */
  method ScanMem8(hay: seq<byte>, k: uintn, b: byte) returns (r: Option<uintn>)
    requires k == |hay|
    ensures match r
            case Some(at) => at < k && hay[at] == b && b !in hay[..at]
            case None => b !in hay
  {
    var i: uintn := 0;
    while i < k
      invariant i <= k && b !in hay[..i]
    {
      if hay[i] == b {
        return Some(i);
      }
      i := i + 1;
    }
    return None;
  }

  /** No occurrence starts where the needle's first byte is not found. */
  lemma FirstByteFilters(hay: seq<byte>, n: seq<byte>, at: nat)
    requires 0 < |n| && at <= |hay| && n[0] !in hay[..at]
    ensures NoneIn(hay, n, 0, at)
  {
    forall t | 0 <= t < at
      ensures !OccursAt(hay, n, t)
    {
      assert hay[t] == hay[..at][t];
      if OccursAt(hay, n, t) {
        OccurrenceLetter(hay, n, t, 0);
      }
    }
  }

  lemma FirstFromPrefix(hay: seq<byte>, n: seq<byte>, from: int, r: Option<uintn>)
    requires NoneIn(hay, n, 0, from) && 0 <= from && IsFirstOccurrence(hay, n, from, r)
    ensures IsFirstOccurrence(hay, n, 0, r)
  {
  }

  /** For every haystack and needle, the least index where the needle occurs, or none. */
  method Memmem(hay: seq<byte>, k0: uintn, n: seq<byte>, l: uintn) returns (r: Option<uintn>)
    requires k0 == |hay| && l == |n|
    ensures IsFirstOccurrence(hay, n, 0, r)
  {
    if l == 0 {
      return Some(0);
    }
    if k0 < l {
      return None;
    }
    var first := ScanMem8(hay, k0, n[0]);
    if first.None? {
      assert hay[..|hay|] == hay;
      FirstByteFilters(hay, n, |hay|);
      return None;
    }
    var h := first.value;
    FirstByteFilters(hay, n, h);
    if l == 1 {
      assert hay[h..h + 1] == n;
      return Some(h);
    }
    var k := k0 - h;
    if k < l {
      return None;
    }
    if l == 2 {
      r := TwobyteMemmem(hay, h, k, n);
    } else if l == 3 {
      r := ThreebyteMemmem(hay, h, k, n);
    } else if l == 4 {
      r := FourbyteMemmem(hay, h, k, n);
    } else {
      ghost var steps, tests;
      r, steps, tests := TwowayMemmem(hay, h, h + k, n, l);
    }
    FirstFromPrefix(hay, n, h, r);
  }
}
