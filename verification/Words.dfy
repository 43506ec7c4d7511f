/**
 Combinatorics of words, for the two-way search of Memory.c: periods, local
 repetitions, the lexicographic order of suffixes, and the critical
 factorization theorem.
 */
module Words {
  import opened MachineWord

  /** The needle occurs in the haystack at offset `at`. */
  ghost predicate OccursAt(hay: seq<byte>, needle: seq<byte>, at: int)
  {
    0 <= at && at + |needle| <= |hay| && hay[at..at + |needle|] == needle
  }

  /** Letters at distance `p` agree. */
  ghost predicate HasPeriod(x: seq<byte>, p: int)
  {
    0 < p && forall i, j :: 0 <= i && j == i + p && j < |x| ==> x[i] == x[j]
  }

  ghost predicate IsSmallestPeriod(x: seq<byte>, p: int)
  {
    HasPeriod(x, p) && forall q :: HasPeriod(x, q) ==> p <= q
  }

  /** A repetition of length `r` is centred between `x[..c]` and `x[c..]`. */
  ghost predicate LocallyRepeats(x: seq<byte>, c: int, r: int)
  {
    0 < r && forall i, j :: 0 <= i < c <= j == i + r < |x| ==> x[i] == x[j]
  }

  /** The byte order of a pass; the second pass uses the reversed one. */
  predicate Before(reversed: bool, a: byte, b: byte)
  {
    if reversed then b < a else a < b
  }

  /** The lexicographic order, a proper prefix coming first. */
  predicate LexLess(reversed: bool, a: seq<byte>, b: seq<byte>)
  {
    b != [] &&
    (a == [] || Before(reversed, a[0], b[0]) || (a[0] == b[0] && LexLess(reversed, a[1..], b[1..])))
  }

  /** `x[s..]` is the greatest non-empty suffix of `x`. */
  ghost predicate IsMaximalSuffix(reversed: bool, x: seq<byte>, s: int)
  {
    0 <= s < |x| &&
    forall i :: 0 <= i < |x| && i != s ==> LexLess(reversed, x[i..], x[s..])
  }

  // ---------- The lexicographic order by first difference ----------

  /** The suffixes at `i` and `s` agree on `m` letters. */
  ghost predicate Agree(x: seq<byte>, i: int, s: int, m: int)
  {
    0 <= i && 0 <= s && 0 <= m && i + m <= |x| && s + m <= |x| &&
    forall u, v :: i <= u < i + m && v == u + s - i ==> x[u] == x[v]
  }

  lemma AgreeAt(x: seq<byte>, i: int, s: int, m: int, j: int)
    requires Agree(x, i, s, m) && 0 <= j < m
    ensures x[i + j] == x[s + j]
  {
  }

  lemma AgreeTransitive(x: seq<byte>, i: int, s: int, t: int, m: int)
    requires Agree(x, i, s, m) && Agree(x, s, t, m)
    ensures Agree(x, i, t, m)
  {
    forall u, v | i <= u < i + m && v == u + t - i
      ensures x[u] == x[v]
    {
      assert x[u] == x[u + s - i];
    }
  }

  lemma AgreeFrom(x: seq<byte>, i: int, s: int, m: int, j: int)
    requires Agree(x, i, s, m) && 0 <= j <= m
    ensures Agree(x, i + j, s + j, m - j)
  {
  }

  /** The suffix at `i` first differs from the one at `s` after `m` letters, and is the smaller. */
  ghost predicate SmallerAfter(reversed: bool, x: seq<byte>, i: int, s: int, m: int)
  {
    Agree(x, i, s, m) && s + m < |x| && (i + m == |x| || Before(reversed, x[i + m], x[s + m]))
  }

  lemma {:induction false} LexLessHasDifference(reversed: bool, x: seq<byte>, i: int, s: int) returns (m: nat)
    requires 0 <= i <= |x| && 0 <= s <= |x|
    requires LexLess(reversed, x[i..], x[s..])
    ensures SmallerAfter(reversed, x, i, s, m)
    decreases |x| - i
  {
    if i == |x| || Before(reversed, x[i], x[s]) {
      m := 0;
    } else {
      assert x[i..][1..] == x[i + 1..] && x[s..][1..] == x[s + 1..];
      m := LexLessHasDifference(reversed, x, i + 1, s + 1);
      m := m + 1;
    }
  }

  lemma MaximalSuffixIsGreater(reversed: bool, x: seq<byte>, s: int, i: int) returns (m: nat)
    requires IsMaximalSuffix(reversed, x, s) && 0 <= i < |x| && i != s
    ensures SmallerAfter(reversed, x, i, s, m)
  {
    m := LexLessHasDifference(reversed, x, i, s);
  }

  lemma {:induction false} DifferenceIsLexLess(reversed: bool, x: seq<byte>, i: int, s: int, m: nat)
    requires SmallerAfter(reversed, x, i, s, m)
    ensures LexLess(reversed, x[i..], x[s..])
    decreases m
  {
    if m == 0 {
    } else {
      assert x[i] == x[s];
      DifferenceIsLexLess(reversed, x, i + 1, s + 1, m - 1);
      assert x[i..][1..] == x[i + 1..] && x[s..][1..] == x[s + 1..];
    }
  }

  /** Two suffixes cannot each be smaller than the other in the same order. */
  lemma SmallerIsAsymmetric(reversed: bool, x: seq<byte>, i: int, s: int, m: int, m': int)
    requires SmallerAfter(reversed, x, i, s, m)
    ensures !SmallerAfter(reversed, x, s, i, m')
  {
  }

  /** When `i` is smaller than `s` in both orders, its suffix is a prefix of the other. */
  lemma SmallerInBothIsPrefix(x: seq<byte>, i: int, s: int, m: int, m': int)
    requires SmallerAfter(false, x, i, s, m) && SmallerAfter(true, x, i, s, m')
    ensures i + m == |x|
  {
  }

  // ---------- Critical factorization ----------

  /** A repetition that fits in front of a maximal suffix would make a greater one. */
  lemma NoRepetitionInside(reversed: bool, x: seq<byte>, c: int, r: int)
    requires IsMaximalSuffix(reversed, x, c) && LocallyRepeats(x, c, r)
    ensures r > c
  {
    if r <= c {
      var m := MaximalSuffixIsGreater(reversed, x, c, c - r);
      if m >= r {
        assert SmallerAfter(reversed, x, c, c + r, m - r) by { AgreeFrom(x, c - r, c, m, r); }
        var m' := MaximalSuffixIsGreater(reversed, x, c, c + r);
        SmallerIsAsymmetric(reversed, x, c, c + r, m - r, m');
      }
    }
  }

  /** From the maximal suffix of the other order, the repetition bounds `x[c + r..]` in that order too. */
  lemma RepetitionIsSmaller(reversed: bool, x: seq<byte>, c: int, d: int, r: int) returns (m: int)
    requires IsMaximalSuffix(reversed, x, d) && d <= c && c + r < |x|
    requires LocallyRepeats(x, c, r) && r > c
    ensures SmallerAfter(reversed, x, c + r, c, m)
  {
    var n := MaximalSuffixIsGreater(reversed, x, d, d + r);
    m := n - (c - d);
  }

  lemma RepetitionExtends(x: seq<byte>, c: int, r: int)
    requires 0 <= c && c + r < |x| && LocallyRepeats(x, c, r) && r > c
    requires Agree(x, c + r, c, |x| - c - r)
    ensures HasPeriod(x, r)
  {
    forall i, j | 0 <= i && j == i + r && j < |x|
      ensures x[i] == x[j]
    {
      if i >= c {
        assert x[j] == x[i];
      }
    }
  }

  /**
   The critical factorization theorem: cut at the later of the two maximal
   suffixes, every repetition centred at the cut is longer than the left part and
   is a period of the whole word.
   */
  lemma CriticalFactorization(reversed: bool, x: seq<byte>, c: int, d: int, r: int)
    requires IsMaximalSuffix(reversed, x, c) && IsMaximalSuffix(!reversed, x, d) && d <= c
    requires LocallyRepeats(x, c, r)
    ensures r > c && HasPeriod(x, r)
  {
    NoRepetitionInside(reversed, x, c, r);
    if c + r < |x| {
      var m := MaximalSuffixIsGreater(reversed, x, c, c + r);
      var m' := RepetitionIsSmaller(!reversed, x, c, d, r);
      if reversed {
        SmallerInBothIsPrefix(x, c + r, c, m', m);
      } else {
        SmallerInBothIsPrefix(x, c + r, c, m, m');
      }
      RepetitionExtends(x, c, r);
    }
  }

  /** So the smallest repetition centred at the cut is the smallest period of the word, and the cut comes before it. */
  lemma LocalPeriodIsSmallestPeriod(reversed: bool, x: seq<byte>, c: int, d: int, p: int)
    requires IsMaximalSuffix(reversed, x, c) && IsMaximalSuffix(!reversed, x, d) && d <= c
    requires IsSmallestPeriod(x, p)
    ensures c < p && LocallyRepeats(x, c, p)
    ensures forall r :: LocallyRepeats(x, c, r) ==> p <= r
  {
    CriticalFactorization(reversed, x, c, d, p);
    forall r | LocallyRepeats(x, c, r)
      ensures p <= r
    {
      CriticalFactorization(reversed, x, c, d, r);
    }
  }
}
