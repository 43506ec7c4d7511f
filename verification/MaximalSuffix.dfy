/** The maximal-suffix pass of `twoway_memmem`, which the source writes out once for each byte order. */
module MaximalSuffix {
  import opened MachineWord
  import opened Words

  /** The suffix at `i` is beaten by the one at `s` on their letters at distance `m`. */
  ghost predicate Loses(reversed: bool, x: seq<byte>, i: int, s: int, m: int)
  {
    Agree(x, i, s, m) && i + m < |x| && s + m < |x| && Before(reversed, x[i + m], x[s + m])
  }

  /** `x[s..e]` repeats with period `p`. */
  ghost predicate PeriodicUpTo(x: seq<byte>, s: int, e: int, p: int)
  {
    0 <= s && e <= |x| && 0 < p &&
    forall i, j :: s <= i && j == i + p && j < e ==> x[i] == x[j]
  }

  /** The suffix at `i` is beaten by the one at `s` on a letter of `x[i..end]`. */
  ghost predicate IsBeaten(reversed: bool, x: seq<byte>, i: int, s: int, end: int)
  {
    exists m :: Loses(reversed, x, i, s, m) && i + m < end
  }

  /** Every start before the candidate `s` is beaten by it. */
  ghost predicate BeatsEarlier(reversed: bool, x: seq<byte>, s: int)
  {
    forall i :: 0 <= i < s ==> IsBeaten(reversed, x, i, s, |x|)
  }

  /** Every start strictly inside `x[s..end]` is beaten by `s` on a letter of `x[s..end]`. */
  ghost predicate BeatsInner(reversed: bool, x: seq<byte>, s: int, end: int)
  {
    forall i :: s < i < end ==> IsBeaten(reversed, x, i, s, end)
  }

  /** What a pass knows about the candidate start `s` after looking at `x[..e]`. */
  ghost predicate Candidate(reversed: bool, x: seq<byte>, s: int, e: int, p: int)
  {
    s + p <= e && PeriodicUpTo(x, s, e, p) && BeatsEarlier(reversed, x, s) && BeatsInner(reversed, x, s, s + p)
  }

  lemma LosesIfAgree(reversed: bool, x: seq<byte>, i: int, j: int, s: int, m: int, end: int)
    requires Loses(reversed, x, j, s, m) && Agree(x, i, j, end - i) && i <= end
    ensures if i + m < end then Loses(reversed, x, i, s, m) else Agree(x, i, s, end - i)
  {
    if i + m < end {
      AgreeTransitive(x, i, j, s, m);
      assert x[i + m] == x[j + m];
    } else {
      AgreeTransitive(x, i, j, s, end - i);
    }
  }

  lemma OnePeriodLater(reversed: bool, x: seq<byte>, s: int, e: int, p: int, i: int)
    requires PeriodicUpTo(x, s, e, p) && s + p <= i <= e
    requires Agree(x, i - p, s, e - i + p) || IsBeaten(reversed, x, i - p, s, e)
    ensures Agree(x, i, s, e - i) || IsBeaten(reversed, x, i, s, e)
  {
    assert Agree(x, i, i - p, e - i);
    if Agree(x, i - p, s, e - i + p) {
      AgreeTransitive(x, i, i - p, s, e - i);
    } else {
      var m :| Loses(reversed, x, i - p, s, m) && i - p + m < e;
      LosesIfAgree(reversed, x, i, i - p, s, m, e);
    }
  }

  /** A later start is beaten within `x[..e]`, or agrees with the candidate up to there. */
  lemma {:induction false} LaterStart(reversed: bool, x: seq<byte>, s: int, e: int, p: int, i: int)
    requires Candidate(reversed, x, s, e, p) && s <= i <= e
    ensures Agree(x, i, s, e - i) || IsBeaten(reversed, x, i, s, e)
    decreases i
  {
    if s < i < s + p {
      assert IsBeaten(reversed, x, i, s, s + p);
      var m :| Loses(reversed, x, i, s, m) && i + m < s + p;
    } else if i >= s + p {
      LaterStart(reversed, x, s, e, p, i - p);
      OnePeriodLater(reversed, x, s, e, p, i);
    }
  }

  lemma InnerStartDisagrees(reversed: bool, x: seq<byte>, s: int, e: int, p: int, i: int)
    requires Candidate(reversed, x, s, e, p) && s < i < s + p
    ensures !Agree(x, i, s, e - i)
  {
    assert IsBeaten(reversed, x, i, s, s + p);
    var m :| Loses(reversed, x, i, s, m) && i + m < s + p;
  }

  lemma BeatenAt(reversed: bool, x: seq<byte>, i: int, s: int, end: int, k: int)
    requires IsBeaten(reversed, x, i, s, end) && Agree(x, i, s, k) && i + k < |x| && s + k < |x|
    ensures x[i + k] == x[s + k] || Before(reversed, x[i + k], x[s + k])
  {
    var m :| Loses(reversed, x, i, s, m) && i + m < end;
    if m > k {
      AgreeAt(x, i, s, m, k);
    }
  }

  lemma PeriodicAgrees(x: seq<byte>, s: int, e: int, p: int, i: int, m: int)
    requires PeriodicUpTo(x, s, e, p) && s + p <= i <= i + m <= e
    requires Agree(x, i, s, m)
    ensures Agree(x, i - p, s, m)
  {
    assert Agree(x, i - p, i, m);
    AgreeTransitive(x, i - p, i, s, m);
  }

  lemma OnePeriodEarlier(reversed: bool, x: seq<byte>, s: int, e: int, p: int, i: int)
    requires PeriodicUpTo(x, s, e, p) && s + p <= i <= e < |x|
    requires Agree(x, i, s, e - i)
    requires Agree(x, i - p, s, e - i + p) || IsBeaten(reversed, x, i - p, s, e)
    ensures x[e - p] == x[s + e - i] || Before(reversed, x[e - p], x[s + e - i])
  {
    var b, k := i - p, e - i;
    assert Agree(x, b, s, k) by { PeriodicAgrees(x, s, e, p, i, k); }
    if Agree(x, b, s, k + p) {
      AgreeAt(x, b, s, k + p, k);
    } else {
      BeatenAt(reversed, x, b, s, e, k);
    }
  }

  /** Where a later start agrees up to `e`, the letter its prolongation needs is at least the expected one. */
  lemma ExpectedIsLarger(reversed: bool, x: seq<byte>, s: int, e: int, p: int, i: int)
    requires Candidate(reversed, x, s, e, p) && s + p <= i <= e < |x|
    requires Agree(x, i, s, e - i)
    ensures x[e - p] == x[s + e - i] || Before(reversed, x[e - p], x[s + e - i])
  {
    LaterStart(reversed, x, s, e, p, i - p);
    OnePeriodEarlier(reversed, x, s, e, p, i);
  }

  /** When `x[e]` is smaller than expected, the whole of `x[s..e]` becomes the first period. */
  lemma SmallerLetter(reversed: bool, x: seq<byte>, s: int, e: int, p: int)
    requires Candidate(reversed, x, s, e, p) && e < |x|
    requires Before(reversed, x[e], x[e - p])
    ensures Candidate(reversed, x, s, e + 1, e + 1 - s)
  {
    var end := e + 1;
    forall i | s < i < end
      ensures IsBeaten(reversed, x, i, s, end)
    {
      LaterStart(reversed, x, s, e, p, i);
      if Agree(x, i, s, e - i) {
        if i < s + p {
          InnerStartDisagrees(reversed, x, s, e, p, i);
        } else {
          ExpectedIsLarger(reversed, x, s, e, p, i);
          assert Loses(reversed, x, i, s, e - i);
        }
      }
    }
  }

  lemma LosesToLarger(reversed: bool, x: seq<byte>, i: int, s: int, t: int, k: int, m: int)
    requires Loses(reversed, x, i, s, m) && Loses(reversed, x, s, t, k)
    ensures IsBeaten(reversed, x, i, t, |x|)
  {
    var least := if m < k then m else k;
    AgreeTransitive(x, i, s, t, least);
    assert m < k ==> x[s + m] == x[t + m];
    assert k < m ==> x[i + k] == x[s + k];
    assert Loses(reversed, x, i, t, least);
  }

  lemma AgreesWithLoser(reversed: bool, x: seq<byte>, i: int, s: int, t: int, k: int)
    requires Agree(x, i, s, k + 1) && Loses(reversed, x, s, t, k)
    ensures Loses(reversed, x, i, t, k)
  {
    AgreeAt(x, i, s, k + 1, k);
    AgreeTransitive(x, i, s, t, k);
  }

  lemma LaterLosesToLarger(reversed: bool, x: seq<byte>, i: int, s: int, t: int, e: int)
    requires Agree(x, i, s, e - i) || IsBeaten(reversed, x, i, s, e)
    requires i < t <= e && Loses(reversed, x, s, t, e - t)
    ensures IsBeaten(reversed, x, i, t, |x|)
  {
    if IsBeaten(reversed, x, i, s, e) {
      var m :| Loses(reversed, x, i, s, m) && i + m < e;
      LosesToLarger(reversed, x, i, s, t, e - t, m);
    } else {
      assert Agree(x, i, s, e - t + 1);
      AgreesWithLoser(reversed, x, i, s, t, e - t);
    }
  }

  /** When `x[e]` is larger than expected, the candidate moves to the last repetition. */
  lemma LargerLetter(reversed: bool, x: seq<byte>, s: int, e: int, p: int, t: int)
    requires Candidate(reversed, x, s, e, p) && s < t <= e < |x|
    requires Agree(x, s, t, e - t)
    requires Before(reversed, x[s + e - t], x[e])
    ensures BeatsEarlier(reversed, x, t)
  {
    assert Loses(reversed, x, s, t, e - t);
    forall i | 0 <= i < t
      ensures IsBeaten(reversed, x, i, t, |x|)
    {
      if i < s {
        assert IsBeaten(reversed, x, i, s, |x|);
        var m :| Loses(reversed, x, i, s, m);
        LosesToLarger(reversed, x, i, s, t, e - t, m);
      } else {
        LaterStart(reversed, x, s, e, p, i);
        LaterLosesToLarger(reversed, x, i, s, t, e);
      }
    }
  }

  /** The state of a pass: the candidate, and the last complete repetition, ending at `jp`. */
  ghost predicate PassState(reversed: bool, x: seq<byte>, s: int, jp: int, k: int, p: int)
  {
    1 <= k <= p <= jp + 1 - s &&
    Candidate(reversed, x, s, jp + k, p) && Agree(x, s, jp + 1 - p, p)
  }

  lemma ExpectedLetter(reversed: bool, x: seq<byte>, s: int, jp: int, k: int, p: int)
    requires PassState(reversed, x, s, jp, k, p)
    ensures Agree(x, s, jp + 1, k - 1) && x[s + k - 1] == x[jp + k - p]
  {
    assert Agree(x, jp + 1 - p, jp + 1, k - 1);
    AgreeTransitive(x, s, jp + 1 - p, jp + 1, k - 1);
    AgreeAt(x, s, jp + 1 - p, p, k - 1);
  }

  lemma SameLetter(reversed: bool, x: seq<byte>, s: int, jp: int, k: int, p: int, jp': int, k': int)
    requires PassState(reversed, x, s, jp, k, p) && jp + k < |x|
    requires x[s + k - 1] == x[jp + k]
    requires if k == p then jp' == jp + p && k' == 1 else jp' == jp && k' == k + 1
    ensures PassState(reversed, x, s, jp', k', p)
  {
    ExpectedLetter(reversed, x, s, jp, k, p);
    assert PeriodicUpTo(x, s, jp + k + 1, p);
    if k == p {
      assert Agree(x, jp + 1 - p, jp + 1, p);
      AgreeTransitive(x, s, jp + 1 - p, jp + 1, p);
    }
  }

  lemma SmallerLetterStep(reversed: bool, x: seq<byte>, s: int, jp: int, k: int, p: int, jp': int, p': int)
    requires PassState(reversed, x, s, jp, k, p) && jp + k < |x|
    requires Before(reversed, x[jp + k], x[s + k - 1])
    requires jp' == jp + k && p' == jp' + 1 - s
    ensures PassState(reversed, x, s, jp', 1, p')
  {
    ExpectedLetter(reversed, x, s, jp, k, p);
    SmallerLetter(reversed, x, s, jp + k, p);
  }

  lemma LargerLetterStep(reversed: bool, x: seq<byte>, s: int, jp: int, k: int, p: int, jp': int)
    requires PassState(reversed, x, s, jp, k, p) && jp + k < |x|
    requires Before(reversed, x[s + k - 1], x[jp + k])
    requires jp' == jp + 1
    ensures PassState(reversed, x, jp', jp', 1, 1)
  {
    ExpectedLetter(reversed, x, s, jp, k, p);
    LargerLetter(reversed, x, s, jp + k, p, jp + 1);
  }

  /** A candidate that has seen all of `x` is the greatest suffix. */
  lemma CandidateIsMaximal(reversed: bool, x: seq<byte>, s: int, p: int)
    requires Candidate(reversed, x, s, |x|, p)
    ensures IsMaximalSuffix(reversed, x, s)
  {
    forall i | 0 <= i < |x| && i != s
      ensures LexLess(reversed, x[i..], x[s..])
    {
      var m: int;
      if i < s {
        assert IsBeaten(reversed, x, i, s, |x|);
        m :| Loses(reversed, x, i, s, m);
      } else {
        LaterStart(reversed, x, s, |x|, p, i);
        if Agree(x, i, s, |x| - i) {
          m := |x| - i;
        } else {
          m :| Loses(reversed, x, i, s, m) && i + m < |x|;
        }
      }
      DifferenceIsLexLess(reversed, x, i, s, m);
    }
  }

  /** Its period is its smallest one: a smaller one would contradict `BeatsInner`. */
  lemma CandidatePeriodIsSmallest(reversed: bool, x: seq<byte>, s: int, p: int)
    requires Candidate(reversed, x, s, |x|, p)
    ensures IsSmallestPeriod(x[s..], p)
  {
    var v := x[s..];
    assert HasPeriod(v, p) by {
      forall i, j | 0 <= i && j == i + p && j < |v|
        ensures v[i] == v[j]
      {
        assert x[s + i] == x[s + j];
      }
    }
    forall q | 0 < q < p
      ensures !HasPeriod(v, q)
    {
      assert IsBeaten(reversed, x, s + q, s, s + p);
      var m :| Loses(reversed, x, s + q, s, m) && s + q + m < s + p;
      assert v[m] == x[s + m] && v[q + m] == x[s + q + m];
    }
  }

  /**
   One pass over the needle. `ip` is one before the start of the greatest suffix,
   so that it wraps to the largest word when that start is 0. Counting from
   `ip = -1`, every step increases `ip + jp + k`, which bounds the steps.
   */
  method ComputeMaximalSuffix(n: seq<byte>, l: uintn, reversed: bool)
    returns (ip: uintn, p: uintn, ghost steps: nat)
    requires 0 < l == |n|
    ensures Plus(ip, 1) < l && IsMaximalSuffix(reversed, n, Plus(ip, 1))
    ensures Plus(ip, 1) + p <= l && IsSmallestPeriod(n[Plus(ip, 1)..], p)
    ensures l - 1 <= steps < 2 * l
  {
    var jp: uintn, k: uintn := 0, 1;
    ip, p, steps := MINUS_ONE, 1, 0;
    ghost var s := 0;
    while Plus(jp, k) < l
      invariant s == Plus(ip, 1) <= jp < l && jp + k <= l
      invariant PassState(reversed, n, s, jp, k, p)
      invariant jp + k - 1 <= steps <= (s - 1) + jp + k
      decreases 2 * l - s - jp - k
    {
      steps := steps + 1;
      ghost var s0, jp0, k0, p0 := s, jp, k, p;
      if n[Plus(ip, k)] == n[Plus(jp, k)] {
        if k == p {
          jp := jp + p;
          k := 1;
        } else {
          k := k + 1;
        }
        SameLetter(reversed, n, s, jp0, k0, p, jp, k);
      } else if Before(reversed, n[Plus(jp, k)], n[Plus(ip, k)]) {
        jp := jp + k;
        k := 1;
        p := Minus(jp, ip);
        SmallerLetterStep(reversed, n, s, jp0, k0, p0, jp, p);
      } else {
        ip := jp;
        jp := jp + 1;
        k := 1;
        p := 1;
        s := jp;
        LargerLetterStep(reversed, n, s0, jp0, k0, p0, jp);
      }
    }
    CandidateIsMaximal(reversed, n, s, p);
    CandidatePeriodIsSmallest(reversed, n, s, p);
  }
}
