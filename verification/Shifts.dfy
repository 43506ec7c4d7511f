/** Why no shift of the two-way search skips an occurrence. */
module Shifts {
  import opened MachineWord
  import opened Words

  /** The window of the haystack at `at` matches the needle on the indices `lo..hi`. */
  ghost predicate WindowMatches(hay: seq<byte>, at: int, n: seq<byte>, lo: int, hi: int)
  {
    0 <= at && 0 <= lo && hi <= |n| && at + hi <= |hay| &&
    forall j, u :: lo <= j < hi && u == at + j ==> n[j] == hay[u]
  }

  /** No occurrence starts in `from..to`. */
  ghost predicate NoneIn(hay: seq<byte>, n: seq<byte>, from: int, to: int)
  {
    forall t :: from <= t < to ==> !OccursAt(hay, n, t)
  }

  /** Every repetition centred at `c` is longer than `c` and is a period of the needle. */
  ghost predicate IsCritical(n: seq<byte>, c: int)
  {
    forall r :: LocallyRepeats(n, c, r) ==> r > c && HasPeriod(n, r)
  }

  /** No repetition shorter than `p` is centred at `c`. */
  ghost predicate NoShorterRepetition(n: seq<byte>, c: int, p: int)
  {
    forall r :: 0 < r < p ==> !LocallyRepeats(n, c, r)
  }

  /** Index `last` is the last one where the needle has the byte `b`. */
  ghost predicate IsLastIndex(n: seq<byte>, b: byte, last: int)
  {
    0 <= last < |n| && n[last] == b && forall j :: last < j < |n| ==> n[j] != b
  }

  // ---------- Choosing the period ----------

  lemma {:induction false} StepsOfPeriod(x: seq<byte>, c: int, q: int, u: int, v: int, a: nat)
    requires 0 <= c <= |x| && HasPeriod(x[c..], q)
    requires c <= u && v == u + a * q && v < |x|
    ensures u <= v && x[u] == x[v]
    decreases a
  {
    if a == 0 {
    } else {
      assert v - q == u + (a - 1) * q;
      assert q * a >= q;
      StepsOfPeriod(x, c, q, u, v - q, a - 1);
      assert x[c..][v - q - c] == x[c..][v - c];
    }
  }

  lemma {:induction false} Divide(r: nat, q: nat) returns (a: nat, b: nat)
    requires 0 < q
    ensures r == a * q + b && b < q
  {
    if r < q {
      a, b := 0, r;
    } else {
      a, b := Divide(r - q, q);
      assert (a + 1) * q == a * q + q;
      a := a + 1;
    }
  }

  lemma PeriodOfSuffix(x: seq<byte>, c: int, r: int)
    requires 0 <= c <= |x| && HasPeriod(x, r)
    ensures HasPeriod(x[c..], r)
  {
    var v := x[c..];
    forall i, j | 0 <= i && j == i + r && j < |v|
      ensures v[i] == v[j]
    {
      assert x[c + i] == x[c + j];
    }
  }

  /** When the left part repeats at distance `q`, so does the whole needle, and `q` is the smallest period. */
  lemma PeriodicNeedle(n: seq<byte>, c: nat, q: nat)
    requires IsCritical(n, c) && c + q <= |n|
    requires IsSmallestPeriod(n[c..], q)
    requires n[..c] == n[q..q + c]
    ensures IsSmallestPeriod(n, q) && c < q && NoShorterRepetition(n, c, q)
  {
    forall i, j | 0 <= i && j == i + q && j < |n|
      ensures n[i] == n[j]
    {
      if i < c {
        assert n[..c][i] == n[q..q + c][i];
      } else {
        assert n[c..][i - c] == n[c..][j - c];
      }
    }
    assert LocallyRepeats(n, c, q);
    forall r | 0 < r < q
      ensures !LocallyRepeats(n, c, r)
    {
      if LocallyRepeats(n, c, r) {
        PeriodOfSuffix(n, c, r);
      }
    }
    forall r | HasPeriod(n, r)
      ensures q <= r
    {
      assert LocallyRepeats(n, c, r);
    }
  }

  lemma MultipleOfPeriod(n: seq<byte>, c: nat, q: nat, r: int, a: nat)
    requires c + q <= |n| && HasPeriod(n[c..], q)
    requires HasPeriod(n, r) && c < r <= |n| - c && r == a * q
    ensures n[..c] == n[q..q + c]
  {
    forall i | 0 <= i < c
      ensures n[..c][i] == n[q..q + c][i]
    {
      assert n[i] == n[i + r];
      if i + q >= c {
        assert a >= 1 && i + r == i + q + (a - 1) * q;
        StepsOfPeriod(n, c, q, i + q, i + r, a - 1);
      } else {
        assert n[i + q] == n[i + q + r];
        StepsOfPeriod(n, c, q, i + r, i + q + r, 1);
      }
    }
  }

  lemma RemainderRepeats(n: seq<byte>, c: nat, q: nat, r: int, a: nat, b: int)
    requires c + q <= |n| && HasPeriod(n[c..], q)
    requires HasPeriod(n, r) && r <= |n| - c && r == a * q + b && 0 < b < q
    ensures LocallyRepeats(n, c, b)
  {
    forall i, j | 0 <= i < c <= j == i + b < |n|
      ensures n[i] == n[j]
    {
      assert n[i] == n[i + r];
      StepsOfPeriod(n, c, q, i + b, i + r, a);
    }
  }

  /** Otherwise every repetition at the cut is longer than both parts. */
  lemma NonPeriodicNeedle(n: seq<byte>, c: nat, q: nat, r: int)
    requires IsCritical(n, c) && c + q <= |n|
    requires IsSmallestPeriod(n[c..], q)
    requires LocallyRepeats(n, c, r)
    requires n[..c] != n[q..q + c]
    ensures r > c && r > |n| - c
  {
    if r <= |n| - c {
      var a, b := Divide(r, q);
      if b == 0 {
        MultipleOfPeriod(n, c, q, r, a);
      } else {
        assert LocallyRepeats(n, c, b) by { RemainderRepeats(n, c, q, r, a, b); }
        PeriodOfSuffix(n, c, b);
      }
    }
  }

  // ---------- The five shifts ----------

  lemma OccurrenceLetter(hay: seq<byte>, n: seq<byte>, t: int, j: int)
    requires OccursAt(hay, n, t) && 0 <= j < |n|
    ensures hay[t + j] == n[j]
  {
    assert hay[t + j] == hay[t..t + |n|][j];
  }

  /** A later occurrence overlapping the matched part is a repetition at the cut. */
  lemma OccurrenceRepeats(hay: seq<byte>, n: seq<byte>, at: int, c: int, k: int, t: int)
    requires 0 <= c <= k && WindowMatches(hay, at, n, c, k)
    requires at < t && (c + t - at <= k || k == |n|)
    requires OccursAt(hay, n, t)
    ensures LocallyRepeats(n, c, t - at)
  {
    forall i, j | 0 <= i < c <= j == i + (t - at) < |n|
      ensures n[i] == n[j]
    {
      OccurrenceLetter(hay, n, t, i);
      assert n[j] == hay[at + j];
    }
  }

  /** The last byte of the window is not in the needle: shift past it. */
  lemma AbsentByteSkips(hay: seq<byte>, n: seq<byte>, at: int)
    requires 0 <= at && 0 < |n| && at + |n| <= |hay| && hay[at + |n| - 1] !in n
    ensures NoneIn(hay, n, at, at + |n|)
  {
    forall t | at <= t < at + |n|
      ensures !OccursAt(hay, n, t)
    {
      if OccursAt(hay, n, t) {
        OccurrenceLetter(hay, n, t, at + |n| - 1 - t);
      }
    }
  }

  /** The last byte of the window is last in the needle `k` before its end: shift by `k`. */
  lemma BadByteSkips(hay: seq<byte>, n: seq<byte>, at: int, k: int)
    requires 0 <= at && 0 < |n| && at + |n| <= |hay|
    requires IsLastIndex(n, hay[at + |n| - 1], |n| - 1 - k)
    ensures NoneIn(hay, n, at, at + k)
  {
    var last := |n| - 1 - k;
    forall t | at <= t < at + k
      ensures !OccursAt(hay, n, t)
    {
      var j := at + |n| - 1 - t;
      assert n[j] != hay[at + |n| - 1];
      if OccursAt(hay, n, t) {
        OccurrenceLetter(hay, n, t, j);
      }
    }
  }

  /** With a remembered prefix, a mismatch of the last byte lets the whole remembered prefix go. */
  lemma RememberedPrefixSkips(hay: seq<byte>, n: seq<byte>, at: int, p: int)
    requires HasPeriod(n, p) && p <= |n| && 0 < |n| && 0 <= at && at + |n| <= |hay|
    requires WindowMatches(hay, at, n, 0, |n| - p)
    requires hay[at + |n| - 1] != n[|n| - 1]
    ensures NoneIn(hay, n, at, at + |n| - p)
  {
    var end := |n| - 1;
    forall t | at <= t < at + |n| - p
      ensures !OccursAt(hay, n, t)
    {
      var s := t - at;
      assert n[end - p] == hay[at + end - p];
      assert n[end] == n[end - p] && n[end - s] == n[end - p - s];
      if OccursAt(hay, n, t) {
        OccurrenceLetter(hay, n, t, end - s);
        OccurrenceLetter(hay, n, t, end - p - s);
      }
    }
  }

  /** A mismatch at `k` in the right part: shift by `k - c + 1`. */
  lemma RightMismatchSkips(hay: seq<byte>, n: seq<byte>, at: int, c: int, k: int)
    requires IsCritical(n, c) && 0 <= c <= k < |n|
    requires WindowMatches(hay, at, n, c, k) && at + |n| <= |hay| && n[k] != hay[at + k]
    ensures NoneIn(hay, n, at, at + k - c + 1)
  {
    forall t | at <= t < at + k - c + 1
      ensures !OccursAt(hay, n, t)
    {
      if OccursAt(hay, n, t) {
        OccurrenceLetter(hay, n, t, k - (t - at));
        if t > at {
          OccurrenceRepeats(hay, n, at, c, k, t);
        }
      }
    }
  }

  /** The right part matches and the left part does not: shift by `p`. */
  lemma LeftMismatchSkips(hay: seq<byte>, n: seq<byte>, at: int, c: int, p: int, k: int)
    requires NoShorterRepetition(n, c, p) && 0 <= k < c <= |n|
    requires WindowMatches(hay, at, n, c, |n|) && n[k] != hay[at + k]
    ensures NoneIn(hay, n, at, at + p)
  {
    forall t | at <= t < at + p
      ensures !OccursAt(hay, n, t)
    {
      if OccursAt(hay, n, t) {
        if t > at {
          OccurrenceRepeats(hay, n, at, c, |n|, t);
        } else {
          OccurrenceLetter(hay, n, t, k);
        }
      }
    }
  }

  /** After a shift by a period longer than the left part, the overlap is already known to match. */
  lemma ShiftKeepsPrefix(hay: seq<byte>, n: seq<byte>, at: int, c: int, p: int)
    requires HasPeriod(n, p) && 0 <= c < p <= |n|
    requires WindowMatches(hay, at, n, c, |n|)
    ensures WindowMatches(hay, at + p, n, 0, |n| - p)
  {
    forall j, u | 0 <= j < |n| - p && u == at + p + j
      ensures n[j] == hay[u]
    {
      assert n[j] == n[j + p] == hay[at + (j + p)];
    }
  }

  lemma LetterOnePeriodLater(n: seq<byte>, p: int, i: int)
    requires HasPeriod(n, p) && 0 <= i && i + p < |n|
    ensures n[i + p] == n[i]
  {
  }

  /** In a needle with period `p`, every byte it has occurs among its last `p`. */
  lemma LastIndexIsLate(n: seq<byte>, b: byte, last: int, p: int)
    requires HasPeriod(n, p) && IsLastIndex(n, b, last)
    ensures |n| - 1 - last < p
  {
    if last + p < |n| {
      LetterOnePeriodLater(n, p, last);
    }
  }
}
