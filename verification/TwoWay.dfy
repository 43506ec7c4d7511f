/** `twoway_memmem` of Memory.c: preprocessing and search loop of the two-way string search. */
module TwoWay {
  import opened MachineWord
  import opened Wrappers
  import opened Words
  import opened MaximalSuffix
  import opened Shifts

  /** The search result: the first occurrence at or after `from`, or the absence of any. */
  ghost predicate IsFirstOccurrence(hay: seq<byte>, n: seq<byte>, from: int, r: Option<uintn>)
  {
    match r
    case Some(at) => from <= at && OccursAt(hay, n, at) && NoneIn(hay, n, from, at)
    case None => NoneIn(hay, n, from, |hay| + 1)
  }

  // ---------- The shift table and the byte set that guards it ----------

  const SET_WORDS := 8
  const SET_WORD_BITS := 32

  predicate HasBit(word: bv32, i: nat)
    requires i < SET_WORD_BITS
  {
    word & ((1 as bv32) << i) != 0
  }

  function WithBit(word: bv32, i: nat): bv32
    requires i < SET_WORD_BITS
  {
    word | ((1 as bv32) << i)
  }

  lemma BitSetsOnlyItself(w: bv32, i: nat, j: nat)
    requires i < 32 && j < 32
    ensures (w | ((1 as bv32) << i)) & ((1 as bv32) << j) != 0 <==> i == j || w & ((1 as bv32) << j) != 0
  {
  }

  lemma WithBitSetsOnlyItsBit(word: bv32, i: nat, j: nat)
    requires i < SET_WORD_BITS && j < SET_WORD_BITS
    ensures HasBit(WithBit(word, i), j) <==> i == j || HasBit(word, j)
  {
    BitSetsOnlyItself(word, i, j);
  }

  lemma NoBitInZero(i: nat)
    requires i < SET_WORD_BITS
    ensures !HasBit(0, i)
  {
  }

  ghost predicate InSet(set8: seq<bv32>, b: byte)
    requires |set8| == SET_WORDS
  {
    HasBit(set8[b / SET_WORD_BITS], b % SET_WORD_BITS)
  }

  /** The set holds exactly the bytes of `n`, and their shift is one more than their last index. */
  ghost predicate TablesDescribe(n: seq<byte>, set8: seq<bv32>, shift: seq<uintn>)
  {
    |set8| == SET_WORDS && |shift| == 256 &&
    forall b: byte :: if InSet(set8, b) then shift[b] > 0 && IsLastIndex(n, b, shift[b] - 1) else b !in n
  }

  lemma TablesAfterByte(n: seq<byte>, set8: seq<bv32>, shift: seq<uintn>, b: byte, count: uintn)
    requires TablesDescribe(n, set8, shift) && count == |n| + 1
    ensures TablesDescribe(n + [b], set8[b / SET_WORD_BITS := WithBit(set8[b / SET_WORD_BITS], b % SET_WORD_BITS)],
                           shift[b := count])
  {
    var set8' := set8[b / SET_WORD_BITS := WithBit(set8[b / SET_WORD_BITS], b % SET_WORD_BITS)];
    forall b': byte
      ensures InSet(set8', b') <==> b == b' || InSet(set8, b')
    {
      WithBitSetsOnlyItsBit(set8[b / SET_WORD_BITS], b % SET_WORD_BITS, b' % SET_WORD_BITS);
    }
  }

  method FillTables(n: seq<byte>, l: uintn, byteset: array<bv32>, shift: array<uintn>)
    requires l == |n| && byteset.Length == SET_WORDS && shift.Length == 256
    requires forall i :: 0 <= i < SET_WORDS ==> byteset[i] == 0
    modifies byteset, shift
    ensures TablesDescribe(n, byteset[..], shift[..])
  {
    forall b: byte
      ensures !InSet(byteset[..], b)
    {
      NoBitInZero(b % SET_WORD_BITS);
    }
    var i: uintn := 0;
    while i < l
      invariant i <= l
      invariant TablesDescribe(n[..i], byteset[..], shift[..])
    {
      ghost var was, wasShift := byteset[..], shift[..];
      var b := n[i];
      byteset[b / SET_WORD_BITS] := WithBit(byteset[b / SET_WORD_BITS], b % SET_WORD_BITS);
      i := i + 1;
      shift[b] := i;
      assert byteset[..] == was[b / SET_WORD_BITS := WithBit(was[b / SET_WORD_BITS], b % SET_WORD_BITS)];
      assert shift[..] == wasShift[b := i];
      assert n[..i] == n[..i - 1] + [b];
      TablesAfterByte(n[..i - 1], was, wasShift, b, i);
    }
    assert n[..l] == n;
  }

  // ---------- The critical cut and its period ----------

  /** What the search relies on: the cut `c`, the shift `p`, and the prefix length `mem0` kept by a shift. */
  ghost predicate Prepared(n: seq<byte>, c: int, p: int, mem0: int)
  {
    0 <= c < |n| && 0 < p <= |n| &&
    IsCritical(n, c) && NoShorterRepetition(n, c, p) &&
    if mem0 == 0 then 2 * p >= |n| + 1 || (HasPeriod(n, p) && p == |n|)
    else mem0 == |n| - p && HasPeriod(n, p) && c < p
  }

  lemma CutIsCritical(n: seq<byte>, reversed: bool, c: int, d: int)
    requires IsMaximalSuffix(reversed, n, c) && IsMaximalSuffix(!reversed, n, d) && d <= c
    ensures IsCritical(n, c)
  {
    forall r | LocallyRepeats(n, c, r)
      ensures r > c && HasPeriod(n, r)
    {
      CriticalFactorization(reversed, n, c, d, r);
    }
  }

  lemma PreparedNonPeriodic(n: seq<byte>, c: nat, q: nat)
    requires IsCritical(n, c) && c + q <= |n| && IsSmallestPeriod(n[c..], q)
    requires n[..c] != n[q..q + c]
    ensures 0 < c && Prepared(n, c, if c > |n| - c + 1 then c else |n| - c + 1, 0)
  {
    assert n[..0] == n[q..q + 0];
    forall r | LocallyRepeats(n, c, r)
      ensures r > c && r > |n| - c
    {
      NonPeriodicNeedle(n, c, q, r);
    }
  }

  lemma PreparedPeriodic(n: seq<byte>, c: nat, q: nat)
    requires IsCritical(n, c) && c + q <= |n| && c < |n| && IsSmallestPeriod(n[c..], q)
    requires n[..c] == n[q..q + c]
    ensures Prepared(n, c, q, |n| - q)
  {
    PeriodicNeedle(n, c, q);
  }

  /**
   Finds the cut (one after `ms`) and the period. Every maximal suffix starts
   before the needle's end, so `ms + 1` never wraps except from -1 to 0, and the
   comparison of `p` bytes apart stays inside the needle.
   */
  method Prepare(n: seq<byte>, l: uintn) returns (ms: uintn, p: uintn, mem0: uintn, ghost steps: nat)
    requires 0 < l == |n|
    ensures Prepared(n, Plus(ms, 1), p, mem0)
    ensures 2 * l - 2 <= steps < 4 * l
  {
    var p0, ip;
    ghost var steps1, steps2;
    ms, p0, steps1 := ComputeMaximalSuffix(n, l, false);
    ip, p, steps2 := ComputeMaximalSuffix(n, l, true);
    steps := steps1 + steps2;
    if Plus(ip, 1) > Plus(ms, 1) {
      CutIsCritical(n, true, Plus(ip, 1), Plus(ms, 1));
      ms := ip;
    } else {
      CutIsCritical(n, false, Plus(ms, 1), Plus(ip, 1));
      p := p0;
    }
    var c := Plus(ms, 1);
    if n[..c] != n[p..p + c] {
      PreparedNonPeriodic(n, c, p);
      mem0 := 0;
      p := Plus(Max(ms, Minus(Minus(l, ms), 1)), 1);
    } else {
      PreparedPeriodic(n, c, p);
      mem0 := Minus(l, p);
    }
  }

  // ---------- The search loop ----------

  /** Compares the right part of the window from index `from`. */
  method CompareRight(hay: seq<byte>, h: uintn, n: seq<byte>, l: uintn, from: uintn)
    returns (k: uintn, ghost tests: nat)
    requires l == |n| && from <= l && h + l <= |hay| < WORD_MODULUS
    ensures from <= k <= l && WindowMatches(hay, h, n, from, k)
    ensures k < l ==> n[k] != hay[h + k]
    ensures tests == if k < l then k - from + 1 else l - from
  {
    k, tests := from, 0;
    while k < l && n[k] == hay[h + k]
      invariant from <= k <= l && WindowMatches(hay, h, n, from, k)
      invariant tests == k - from
    {
      k := k + 1;
      tests := tests + 1;
    }
    tests := if k < l then tests + 1 else tests;
  }

  /** Compares the left part of the window backwards from the cut down to the remembered prefix. */
  method CompareLeft(hay: seq<byte>, h: uintn, n: seq<byte>, c: uintn, mem: uintn)
    returns (k: uintn, ghost tests: nat)
    requires c <= |n| && h + |n| <= |hay| < WORD_MODULUS
    ensures k <= c && WindowMatches(hay, h, n, k, c)
    ensures if k <= mem then k == (if c < mem then c else mem) else n[k - 1] != hay[h + (k - 1)]
    ensures tests == if k > mem then c - k + 1 else if mem < c then c - mem else 0
  {
    k, tests := c, 0;
    while k > mem && n[k - 1] == hay[h + (k - 1)]
      invariant k <= c && (k >= mem || k == c) && WindowMatches(hay, h, n, k, c)
      invariant tests == c - k
    {
      k := k - 1;
      tests := tests + 1;
    }
    tests := if k > mem then tests + 1 else tests;
  }

  lemma JoinMatches(hay: seq<byte>, at: int, n: seq<byte>, lo: int, mid: int, mid': int, hi: int)
    requires WindowMatches(hay, at, n, lo, mid) && WindowMatches(hay, at, n, mid', hi) && mid' <= mid
    ensures WindowMatches(hay, at, n, lo, hi)
  {
  }

  lemma FullMatchOccurs(hay: seq<byte>, at: int, n: seq<byte>)
    requires WindowMatches(hay, at, n, 0, |n|)
    ensures OccursAt(hay, n, at)
  {
    forall j | 0 <= j < |n|
      ensures hay[at..at + |n|][j] == n[j]
    {
      assert n[j] == hay[at + j];
    }
  }

  /** The part of a remembered prefix that saves comparisons in the right part. */
  function Credit(mem: int, c: int): nat
  {
    if mem > c then mem - c else 0
  }

  /** What the loop remembers of a window: nothing, or that its first `mem0` bytes match. */
  ghost predicate Remembers(hay: seq<byte>, h: int, n: seq<byte>, mem0: int, mem: int)
  {
    mem == 0 || (mem == mem0 && WindowMatches(hay, h, n, 0, mem))
  }

  /** The shift to make after looking at the last byte of the window, or 0 when that byte matches. */
  method LastByteShift(hay: seq<byte>, h: uintn, n: seq<byte>, l: uintn, ghost c: int, p: uintn, mem0: uintn,
                       mem: uintn, byteset: array<bv32>, shift: array<uintn>)
    returns (k: uintn)
    requires 0 < l == |n| && h + l <= |hay| < WORD_MODULUS
    requires Prepared(n, c, p, mem0) && TablesDescribe(n, byteset[..], shift[..])
    requires Remembers(hay, h, n, mem0, mem)
    ensures k <= l && NoneIn(hay, n, h, h + k)
    ensures k > 0 ==> 1 + Credit(mem, c) <= 3 * k
  {
    var b := hay[h + (l - 1)];
    if HasBit(byteset[b / SET_WORD_BITS], b % SET_WORD_BITS) {
      assert InSet(byteset[..], b);
      k := Minus(l, shift[b]);
      if k != 0 {
        BadByteSkips(hay, n, h, k);
        if mem0 != 0 && mem != 0 && k < p {
          RememberedPrefixSkips(hay, n, h, p);
          k := Minus(l, p);
        } else if mem != 0 {
          LastIndexIsLate(n, b, shift[b] - 1, p);
        }
      }
    } else {
      assert !InSet(byteset[..], b);
      AbsentByteSkips(hay, n, h);
      k := l;
    }
  }

  /** A left mismatch costs a whole window of tests, which the shift and the new credit pay for. */
  lemma LeftMismatchIsPaid(n: seq<byte>, c: int, p: int, mem0: int, mem: int)
    requires Prepared(n, c, p, mem0) && 0 <= mem < c
    ensures 1 + (|n| - c) + (c - mem) <= 3 * p + Credit(mem0, c)
  {
  }

  /**
   Compares the right half of the window and then the left one. A shift of 0 says
   that the window is an occurrence; `mem'` is what is remembered after the shift.
   The tests include the one already made on the last byte.
   */
  method HalvesShift(hay: seq<byte>, h: uintn, n: seq<byte>, l: uintn, ms: uintn, p: uintn, mem0: uintn, mem: uintn)
    returns (k: uintn, mem': uintn, ghost tests: nat)
    requires 0 < l == |n| && h + l <= |hay| < WORD_MODULUS
    requires Prepared(n, Plus(ms, 1), p, mem0)
    requires Remembers(hay, h, n, mem0, mem)
    ensures k == 0 ==> OccursAt(hay, n, h) && tests == l - mem && 1 + tests + Credit(mem, Plus(ms, 1)) <= 3 * l
    ensures k > 0 ==> k <= l && NoneIn(hay, n, h, h + k) && Remembers(hay, h + k, n, mem0, mem')
    ensures k > 0 ==> 1 + tests + Credit(mem, Plus(ms, 1)) <= 3 * k + Credit(mem', Plus(ms, 1))
    ensures mem' == 0 || mem' == mem0
  {
    ghost var c := Plus(ms, 1);
    k, tests := CompareRight(hay, h, n, l, Max(Plus(ms, 1), mem));
    if mem > c {
      JoinMatches(hay, h, n, c, mem, mem, k);
    }
    if k < l {
      RightMismatchSkips(hay, n, h, c, k);
      k := Minus(k, ms);
      mem' := 0;
      return;
    }
    ghost var left;
    k, left := CompareLeft(hay, h, n, Plus(ms, 1), mem);
    tests := tests + left;
    if k <= mem {
      JoinMatches(hay, h, n, 0, mem, k, c);
      JoinMatches(hay, h, n, 0, c, c, l);
      FullMatchOccurs(hay, h, n);
      k, mem' := 0, 0;
      return;
    }
    LeftMismatchSkips(hay, n, h, c, p, k - 1);
    LeftMismatchIsPaid(n, c, p, mem0, mem);
    if mem0 != 0 {
      ShiftKeepsPrefix(hay, n, h, c, p);
    }
    k := p;
    mem' := mem0;
  }

  lemma NoneInJoin(hay: seq<byte>, n: seq<byte>, from: int, mid: int, to: int)
    requires NoneIn(hay, n, from, mid) && NoneIn(hay, n, mid, to)
    ensures NoneIn(hay, n, from, to)
  {
  }

  lemma NoneInShortRest(hay: seq<byte>, n: seq<byte>, from: int, h: int)
    requires NoneIn(hay, n, from, h) && |hay| - h < |n|
    ensures NoneIn(hay, n, from, |hay| + 1)
  {
  }

  /** Shifts of at most `l` are covered by `l` times the number of tests. */
  lemma WindowsCoverShift(l: nat, tests: nat, more: nat, d: nat, k: nat)
    requires d <= l * tests && k <= l && 0 < more
    ensures d + k <= l * (tests + more)
  {
    assert l * (tests + more) == l * tests + l * more;
    assert l * more == l + l * (more - 1);
  }

  /**
   The search loop over the window start `h`. Besides finding the first
   occurrence, it makes at most four tests (of a last byte, or of a pair of bytes)
   for each byte of the haystack: `3 * h + Credit(mem, c)` pays for them. It makes at least
   one for each window.
   */
  method Search(hay: seq<byte>, h0: uintn, z: uintn, n: seq<byte>, l: uintn, ms: uintn, p: uintn, mem0: uintn,
                byteset: array<bv32>, shift: array<uintn>)
    returns (r: Option<uintn>, ghost tests: nat)
    requires 0 < l == |n| && h0 <= z == |hay|
    requires Prepared(n, Plus(ms, 1), p, mem0) && TablesDescribe(n, byteset[..], shift[..])
    ensures IsFirstOccurrence(hay, n, h0, r)
    ensures (if r.Some? then r.value else z - l) - h0 <= l * tests && tests <= 4 * (z - h0)
  {
    var h, mem := h0, 0;
    ghost var c := Plus(ms, 1);
    tests := 0;
    while true
      invariant h0 <= h <= z && NoneIn(hay, n, h0, h)
      invariant Remembers(hay, h, n, mem0, mem)
      invariant h - h0 <= l * tests && tests <= 3 * (h - h0) + Credit(mem, c) && mem <= z - h0
      decreases z - h
    {
      ghost var start := h;
      if Minus(z, h) < l {
        NoneInShortRest(hay, n, h0, h);
        return None, tests;
      }
      tests := tests + 1;
      var k := LastByteShift(hay, h, n, l, c, p, mem0, mem, byteset, shift);
      if k != 0 {
        WindowsCoverShift(l, tests - 1, 1, h - h0, k);
        h := Plus(h, k);
        NoneInJoin(hay, n, h0, start, h);
        mem := 0;
        continue;
      }
      ghost var halves;
      k, mem, halves := HalvesShift(hay, h, n, l, ms, p, mem0, mem);
      tests := tests + halves;
      WindowsCoverShift(l, tests - 1 - halves, 1 + halves, h - h0, k);
      if k == 0 {
        return Some(h), tests;
      }
      h := Plus(h, k);
      NoneInJoin(hay, n, h0, start, h);
    }
  }

  /** The whole of `twoway_memmem`: preprocess the needle, then search `hay[h0..z]`. */
  method TwowayMemmem(hay: seq<byte>, h0: uintn, z: uintn, n: seq<byte>, l: uintn)
    returns (r: Option<uintn>, ghost steps: nat, ghost tests: nat)
    requires 0 < l == |n| && h0 <= z == |hay|
    ensures IsFirstOccurrence(hay, n, h0, r)
    ensures 2 * l - 2 <= steps < 4 * l
    ensures (if r.Some? then r.value else z - l) - h0 <= l * tests && tests <= 4 * (z - h0)
  {
    var byteset := new bv32[SET_WORDS](_ => 0);
    var shift := new uintn[256];
    FillTables(n, l, byteset, shift);
    var ms, p, mem0;
    ms, p, mem0, steps := Prepare(n, l);
    r, tests := Search(hay, h0, z, n, l, ms, p, mem0, byteset, shift);
  }
}
