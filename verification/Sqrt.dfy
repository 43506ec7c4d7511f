/** `hibit`, the portable `bsr32` and `sqrt_d` of MathLib.c, the last over real numbers. */
module Sqrt {
  import opened Arith
  import opened Bits

  // ---------- Unsigned words ----------

  /** Bit `k` is the highest one of `n`. */
  ghost predicate HighestBit(n: nat, k: nat)
  {
    Pow2(k) <= n < Pow2(k + 1)
  }

  lemma {:induction false} HasHighestBit(n: nat, width: nat) returns (k: nat)
    requires 0 < n < Pow2(width)
    ensures k < width && HighestBit(n, k)
  {
    k := width - 1;
    if n < Pow2(k) {
      k := HasHighestBit(n, width - 1);
    }
  }

  /** How far below the all-ones word a word with its top `s` of `k + 1` bits set may be. */
  function Gap(k: nat, s: nat): nat
  {
    if s > k then 1 else Pow2(k + 1 - s)
  }

  /** The top `s` bits of the `k + 1` bits of `n` are set. */
  ghost predicate TopOnes(n: nat, k: nat, s: nat)
  {
    Pow2(k + 1) - Gap(k, s) <= n < Pow2(k + 1)
  }

  /** Ones from the top down to bit `m` and a mask for the rest make all ones. */
  lemma {:induction false} OrMask(n: nat, k: nat, m: nat)
    requires m <= k && Pow2(k) - Pow2(m) <= n < Pow2(k)
    ensures Or(n, Pow2(m) - 1) == Pow2(k) - 1
  {
    if m == 0 {
      OrZero(n);
    } else {
      OrMask(n / 2, k - 1, m - 1);
    }
  }

  /** The top ones of a word, moved to its bottom. */
  lemma {:induction false} ShrOfOnes(n: nat, k: nat, b: nat, s: nat)
    requires b <= s <= k && Pow2(k) - Pow2(b) <= n < Pow2(k)
    ensures Shr(n, s) == Pow2(k - s) - 1
  {
    if s == 0 {
    } else {
      ShrOfOnes(n / 2, k - 1, if b > 0 then b - 1 else 0, s - 1);
    }
  }

  lemma {:induction false} ShrOfSmall(n: nat, k: nat, s: nat)
    requires n < Pow2(k) && k <= s
    ensures Shr(n, s) == 0
  {
    if k == 0 {
      ShrZero(s);
    } else {
      ShrOfSmall(n / 2, k - 1, s - 1);
    }
  }

  /** `n |= n >> s` doubles the number of ones at the top. */
  lemma {:induction false} Smear(n: nat, k: nat, s: nat)
    requires 0 < s && TopOnes(n, k, s)
    ensures TopOnes(Or(n, Shr(n, s)), k, 2 * s)
  {
    if k < s {
      ShrOfSmall(n, k + 1, s);
      OrZero(n);
    } else if k < 2 * s {
      ShrOfOnes(n, k + 1, k + 1 - s, s);
      OrMask(n, k + 1, k + 1 - s);
    } else {
      Smear(n / 2, k - 1, s);
      ShrHalf(n, s);
    }
  }

  function SmearAll(n0: nat): nat
  {
    var n1 := Or(n0, Shr(n0, 1));
    var n2 := Or(n1, Shr(n1, 2));
    var n3 := Or(n2, Shr(n2, 4));
    var n4 := Or(n3, Shr(n3, 8));
    var n5 := Or(n4, Shr(n4, 16));
    Or(n5, Shr(n5, 32))
  }

  lemma ZeroStaysZero()
    ensures SmearAll(0) == 0 && Shr(0, 1) == 0
  {
    forall s: nat
      ensures Shr(0, s) == 0
    {
      ShrZero(s);
    }
  }

  lemma OnesShifted(k: nat)
    ensures Shr(Pow2(k + 1) - 1, 1) == Pow2(k) - 1
  {
    assert Shr(Pow2(k + 1) - 1, 1) == Shr((Pow2(k + 1) - 1) / 2, 0);
  }

  lemma SmearedWord(n0: nat, k: nat)
    requires k < 64 && HighestBit(n0, k)
    ensures SmearAll(n0) == Pow2(k + 1) - 1 && Shr(Pow2(k + 1) - 1, 1) == Pow2(k) - 1
  {
    var n1 := Or(n0, Shr(n0, 1));
    var n2 := Or(n1, Shr(n1, 2));
    var n3 := Or(n2, Shr(n2, 4));
    var n4 := Or(n3, Shr(n3, 8));
    var n5 := Or(n4, Shr(n4, 16));
    Smear(n0, k, 1);
    Smear(n1, k, 2);
    Smear(n2, k, 4);
    Smear(n3, k, 8);
    Smear(n4, k, 16);
    Smear(n5, k, 32);
    OnesShifted(k);
  }

  lemma HighestBitIsUnique(n: nat, k: nat)
    requires HighestBit(n, k)
    ensures forall j: nat :: HighestBit(n, j) ==> j == k
  {
    forall j: nat | HighestBit(n, j)
      ensures j == k
    {
      if j < k {
        Pow2Monotone(j + 1, k);
      } else if k < j {
        Pow2Monotone(k + 1, j);
      }
    }
  }

  /** The highest bit of a 64-bit word, alone. */
  method Hibit(n0: nat) returns (r: nat)
    requires n0 < Pow2(64)
    ensures r <= n0
    ensures forall k: nat :: HighestBit(n0, k) ==> r == Pow2(k)
  {
    var n := n0;
    n := Or(n, Shr(n, 1));
    n := Or(n, Shr(n, 2));
    n := Or(n, Shr(n, 4));
    n := Or(n, Shr(n, 8));
    n := Or(n, Shr(n, 16));
    n := Or(n, Shr(n, 32));
    if n0 > 0 {
      ghost var k := HasHighestBit(n0, 64);
      SmearedWord(n0, k);
      HighestBitIsUnique(n0, k);
    } else {
      ZeroStaysZero();
    }
    r := n - Shr(n, 1);
  }

  /** The position of the highest bit counted from one, or 0 for the zero word. */
  method Bsr32(value0: nat) returns (count: nat)
    requires value0 < Pow2(64)
    ensures value0 == 0 ==> count == 0
    ensures forall k: nat :: HighestBit(value0, k) ==> count == k + 1
  {
    if value0 == 0 {
      return 0;
    }
    ghost var k := HasHighestBit(value0, 64);
    HighestBitIsUnique(value0, k);
    count := 1;
    var value := value0;
    while count < 64 && value != 1
      invariant 1 <= count <= k + 1 && HighestBit(value, k + 1 - count)
      decreases 64 - count
    {
      value := value / 2;
      count := count + 1;
    }
  }

  // ---------- Heron's method over the reals ----------

  /** One step turns the relative error `(x * x - a) / a` into this. */
  function NextError(e: real): real
    requires e > -1.0
  {
    e * e / (4.0 * (1.0 + e))
  }

  lemma QuotientIsNonNegative(n: real, d: real)
    requires n >= 0.0 && d > 0.0
    ensures n / d >= 0.0
  {
    var r := n / d;
    assert r * d == n;
  }

  lemma NextErrorIsPositive(e: real)
    requires e > -1.0
    ensures NextError(e) >= 0.0
  {
    QuotientIsNonNegative(e * e, 4.0 * (1.0 + e));
  }

  function ErrorAfter(steps: nat, e: real): (r: real)
    requires e > -1.0
    ensures r > -1.0
  {
    if steps == 0 then e
    else
      var before := ErrorAfter(steps - 1, e);
      NextErrorIsPositive(before);
      NextError(before)
  }

  /** One step from the guess `x` at the root of `a`. */
  function Improved(a: real, x: real): real
    requires x != 0.0
  {
    0.5 * (x + a / x)
  }

  lemma HeronIdentity(a: real, d: real, y2: real, q2: real, e: real)
    requires a > 0.0 && d > 0.0 && d == 1.0 + e && d * q2 == a
    requires 4.0 * y2 == a * d + 2.0 * a + q2
    ensures y2 == a * (1.0 + NextError(e))
  {
    var n := NextError(e);
    assert n * (4.0 * d) == e * e;
    assert 4.0 * (d * y2) == a * (d * d) + 2.0 * (a * d) + a;
    assert d * d + 2.0 * d + 1.0 == 4.0 * d + e * e;
    assert 4.0 * (d * y2) == a * (4.0 * d + e * e);
    assert 4.0 * (d * y2) == a * (4.0 * d + n * (4.0 * d));
    assert 4.0 * d * y2 == 4.0 * d * (a * (1.0 + n));
  }

  lemma HeronStep(a: real, x: real, e: real)
    requires a > 0.0 && x > 0.0 && e > -1.0 && x * x == a * (1.0 + e)
    ensures var y := Improved(a, x); y > 0.0 && y * y == a * (1.0 + NextError(e))
  {
    var q := a / x;
    assert q > 0.0 && x * q == a;
    var y, d := 0.5 * (x + q), 1.0 + e;
    assert 4.0 * (y * y) == x * x + 2.0 * a + q * q;
    assert (x * x) * (q * q) == a * a;
    assert a * d * (q * q) == a * a;
    assert d * (q * q) == a;
    HeronIdentity(a, d, y * y, q * q, e);
  }

  lemma FractionOrder(n: real, d: real, n': real, d': real)
    requires 0.0 < d && 0.0 < d' && n * d' <= n' * d
    ensures n / d <= n' / d'
  {
    var r, r' := n / d, n' / d';
    assert n == r * d && n' == r' * d';
    assert r * (d * d') <= r' * (d * d');
  }

  lemma NextErrorMonotone(e: real, e': real)
    requires 0.0 <= e <= e'
    ensures NextError(e) <= NextError(e')
  {
    var d := e' - e;
    assert e' * e' - e * e == d * (e' + e) && d * (e' + e) >= 0.0;
    assert e' * e' * e - e * e * e' == (e * e') * d;
    assert e * e' >= 0.0 && (e * e') * d >= 0.0;
    assert e * e * (4.0 * (1.0 + e')) == 4.0 * (e * e) + 4.0 * (e * e * e');
    assert e' * e' * (4.0 * (1.0 + e)) == 4.0 * (e' * e') + 4.0 * (e' * e' * e);
    FractionOrder(e * e, 4.0 * (1.0 + e), e' * e', 4.0 * (1.0 + e'));
  }

  // ---------- How good six steps are ----------

  /** Without error there is nothing left to correct. */
  lemma {:induction false} ZeroErrorStays(i: nat, j: nat, e: real)
    requires e > -1.0 && i <= j && ErrorAfter(i, e) == 0.0
    ensures ErrorAfter(j, e) == 0.0
    decreases j
  {
    if i == j {
    } else {
      ZeroErrorStays(i, j - 1, e);
    }
  }

  lemma ProductSign(a: real, b: real)
    requires a >= 0.0 && b <= 0.0
    ensures a * b <= 0.0
  {
  }

  lemma ErrorAtMost(i: nat, e: real, bound: real, next: real)
    requires e > -1.0 && 0.0 <= ErrorAfter(i, e) <= bound && NextError(bound) <= next
    ensures 0.0 <= ErrorAfter(i + 1, e) <= next
  {
    NextErrorIsPositive(ErrorAfter(i, e));
    NextErrorMonotone(ErrorAfter(i, e), bound);
  }

  lemma ErrorAtLeast(i: nat, e: real, bound: real, next: real)
    requires e > -1.0 && 0.0 <= bound <= ErrorAfter(i, e) && 0.0 <= next <= NextError(bound)
    ensures next <= ErrorAfter(i + 1, e)
  {
    NextErrorMonotone(bound, ErrorAfter(i, e));
  }

  /** The relative accuracy that six steps reach for all arguments from one on. */
  const FINEST := 0.0000000000000000000000001

  /** The relative accuracy of a `double`, 2 to the -52nd. */
  const DOUBLE_EPSILON := 1.0 / 4503599627370496.0

  /** A guess that is too small by at most a half is no worse than one that is too large. */
  lemma FirstStep(e: real)
    requires -0.75 <= e <= 4.39461618
    ensures 0.0 <= ErrorAfter(1, e) <= 0.894996544941
  {
    assert ErrorAfter(0, e) == e && ErrorAfter(1, e) == NextError(e);
    NextErrorIsPositive(e);
    if e < 0.0 {
      ProductSign(e + 0.75, e - 3.0);
      assert (e + 0.75) * (e - 3.0) == e * e - 2.25 * e - 2.25;
      FractionOrder(e * e, 4.0 * (1.0 + e), 0.5625, 1.0);
    } else {
      NextErrorMonotone(e, 4.39461618);
    }
  }

  lemma SixStepsSuffice(e: real)
    requires -0.75 <= e <= 4.39461618
    ensures 0.0 <= ErrorAfter(6, e) <= FINEST
  {
    FirstStep(e);
    ErrorAtMost(1, e, 0.894996544941, 0.105675498143);
    ErrorAtMost(2, e, 0.105675498143, 0.00252499737187);
    ErrorAtMost(3, e, 0.00252499737187, 0.00000158988846779);
    ErrorAtMost(4, e, 0.00000158988846779, 0.000000000000631935330297);
    ErrorAtMost(5, e, 0.000000000000631935330297, FINEST);
  }

  lemma SixStepsDoNotSuffice(e: real)
    requires e >= 4.3949072
    ensures ErrorAfter(6, e) > FINEST
  {
    assert ErrorAfter(0, e) == e;
    ErrorAtLeast(0, e, 4.3949072, 0.895066800065);
    ErrorAtLeast(1, e, 0.895066800065, 0.105688171064);
    ErrorAtLeast(2, e, 0.105688171064, 0.00252557407123);
    ErrorAtLeast(3, e, 0.00252557407123, 0.00000159061388413);
    ErrorAtLeast(4, e, 0.00000159061388413, 0.000000000000632512126014);
    ErrorAtLeast(5, e, 0.000000000000632512126014, 0.000000000000000000000000100017897388);
  }

  lemma SixStepsSufficeForDouble(e: real)
    requires 0.0 <= e <= 11.3609395
    ensures ErrorAfter(6, e) <= DOUBLE_EPSILON
  {
    assert ErrorAfter(0, e) == e;
    ErrorAtMost(0, e, 11.3609395, 2.610459875);
    ErrorAtMost(1, e, 2.610459875, 0.4718582255);
    ErrorAtMost(2, e, 0.4718582255, 0.03781787219);
    ErrorAtMost(3, e, 0.03781787219, 0.0003445188928);
    ErrorAtMost(4, e, 0.0003445188928, 0.00000002966309738);
    ErrorAtMost(5, e, 0.00000002966309738, 0.0000000000000002199748301);
  }

  lemma SixStepsDoNotSufficeForDouble(e: real)
    requires e >= 11.3762376
    ensures ErrorAfter(6, e) > DOUBLE_EPSILON
  {
    assert ErrorAfter(0, e) == e;
    ErrorAtLeast(0, e, 11.3762376, 2.6142594);
    ErrorAtLeast(1, e, 2.6142594, 0.472735314);
    ErrorAtLeast(2, e, 0.472735314, 0.03793598805);
    ErrorAtLeast(3, e, 0.03793598805, 0.0003466348613);
    ErrorAtLeast(4, e, 0.0003466348613, 0.00000003002852283);
    ErrorAtLeast(5, e, 0.00000003002852283, 0.000000000000000225428039);
  }

  // ---------- `sqrt_d` ----------

  lemma RealProduct(a: nat, b: nat)
    ensures a as real * b as real == (a * b) as real
  {
  }

  /** Half the exponent of the highest bit gives a first guess within a factor of two. */
  lemma GuessIsNear(n: nat, k: nat)
    requires HighestBit(n, k)
    ensures var g := Pow2(k / 2); g * g <= n && n + 1 <= 4 * (g * g)
  {
    var h := k / 2;
    Pow2Add(h, h);
    Pow2Monotone(2 * h, k);
    Pow2Monotone(k + 1, 2 * h + 2);
    assert Pow2(2 * h + 2) == 2 * Pow2(2 * h + 1) == 4 * Pow2(2 * h);
  }

  lemma WordFits(n: nat)
    requires n < 0x1_0000_0000
    ensures n < Pow2(32) <= Pow2(64)
  {
    Pow2Values();
    Pow2Monotone(32, 64);
  }

  /**
   The first guess from the integral part. It is never 0, so that the source's
   correction of a zero guess does not apply.
   */
  method GuessFromWord(n: nat) returns (guess: nat)
    requires n < 0x1_0000_0000
    ensures n == 0 ==> guess == 1
    ensures n > 0 ==> 0 < guess && guess * guess <= n && n + 1 <= 4 * (guess * guess)
  {
    WordFits(n);
    var highest := Hibit(n);
    var position := Bsr32(highest / 2);
    if n > 0 {
      ghost var k := HasHighestBit(n, 32);
      if k > 0 {
        assert HighestBit(highest / 2, k - 1);
      }
      assert position == k;
      GuessIsNear(n, k);
    }
    guess := Pow2(position / 2);
  }

  const TWO_TO_32 := 4294967296.0

  /** What C leaves open about a conversion to 32 bits: the result for arguments that do not fit. */
  ghost predicate IsConverted(input: real, n: nat)
  {
    n < 0x1_0000_0000 && (0.0 <= input < TWO_TO_32 ==> n == input.Floor)
  }

  method FirstGuess(input: real, n: nat) returns (guess: nat)
    requires input > 0.0 && IsConverted(input, n)
    ensures 0 < guess && (input < 1.0 ==> guess == 1)
    ensures var g2 := guess as real * guess as real; 1.0 <= input < TWO_TO_32 ==> g2 <= input < 4.0 * g2
  {
    guess := GuessFromWord(n);
    RealProduct(guess, guess);
  }

  ghost predicate IsRootWithError(a: real, x: real, e: real)
  {
    x > 0.0 && e > -1.0 && x * x == a * (1.0 + e)
  }

  lemma FixpointIsExact(a: real, x: real, e: real)
    requires a > 0.0 && x > 0.0 && x == 0.5 * (x + a / x) && x * x == a * (1.0 + e)
    ensures e == 0.0
  {
    assert x * (a / x) == a;
    assert a * e == 0.0;
  }

  lemma HeronIteration(a: real, x: real, i: nat, e: real) returns (y: real, next: real)
    requires a > 0.0 && e > -1.0 && IsRootWithError(a, x, ErrorAfter(i, e))
    ensures y == Improved(a, x) && IsRootWithError(a, y, next) && next == ErrorAfter(i + 1, e)
    ensures x == y ==> next == 0.0
  {
    HeronStep(a, x, ErrorAfter(i, e));
    y, next := Improved(a, x), ErrorAfter(i + 1, e);
    if x == y {
      FixpointIsExact(a, y, next);
    }
  }

  /** The loop: at most six steps, fewer when a step changes nothing. */
  method Heron(input: real, first: real, ghost e: real) returns (x: real)
    requires input > 0.0 && first > 0.0 && e > -1.0 && first * first == input * (1.0 + e)
    ensures x > 0.0 && x * x == input * (1.0 + ErrorAfter(6, e))
  {
    x := first;
    var prevX := -1.0;
    var i := 0;
    ghost var err := e;
    while i < 6 && x != 0.0 && prevX != x
      invariant i <= 6 && err == ErrorAfter(i, e) && IsRootWithError(input, x, err)
      invariant prevX == x ==> err == 0.0
    {
      ghost var y, next := HeronIteration(input, x, i, e);
      prevX := x;
      x := Improved(input, prevX);
      i, err := i + 1, next;
    }
    if i < 6 {
      ZeroErrorStays(i, 6, e);
    }
  }

  function GuessError(input: real, guess: nat): real
    requires input > 0.0
  {
    guess as real * guess as real / input - 1.0
  }

  lemma GuessErrorRange(input: real, guess: nat)
    requires input > 0.0 && guess > 0
    ensures GuessError(input, guess) > -1.0
    ensures guess as real * guess as real == input * (1.0 + GuessError(input, guess))
    ensures var g2 := guess as real * guess as real;
            g2 <= input < 4.0 * g2 ==> -0.75 < GuessError(input, guess) <= 0.0
  {
    var g2 := guess as real * guess as real;
    var q := g2 / input;
    assert g2 > 0.0 && q * input == g2;
  }

  // ---------- Which arguments six steps serve ----------

  function ErrorOfOne(input: real): real
    requires input > 0.0
  {
    1.0 / input - 1.0
  }

  lemma ErrorOfOneIsPositive(input: real)
    requires 0.0 < input < 1.0
    ensures ErrorOfOne(input) > 0.0
  {
    var q := 1.0 / input;
    assert q * input == 1.0;
  }

  /** The squared result is never too small, and too large by at most a part `tol` of the argument. */
  ghost predicate Accurate(input: real, x: real, tol: real)
  {
    0.0 <= x * x - input <= input * tol
  }

  /** For an argument below one the guess is one, and its error has to shrink to `tol` in six steps. */
  ghost predicate EnoughSteps(input: real, tol: real)
    requires input > 0.0
  {
    input >= 1.0 || (ErrorOfOneIsPositive(input); ErrorAfter(6, ErrorOfOne(input)) <= tol)
  }

  lemma ScaledError(a: real, square: real, err: real, bound: real)
    requires a > 0.0 && square == a * (1.0 + err)
    ensures 0.0 <= err <= bound ==> 0.0 <= square - a <= a * bound
    ensures 0.0 <= bound < err ==> square - a > a * bound
  {
    assert a * (1.0 + err) == a + a * err;
    assert a * (bound - err) == a * bound - a * err;
  }

  /** Whatever the guess and the accuracy asked for, accuracy is a matter of the guess's error. */
  lemma AccurateIffSmallError(input: real, e: real, x: real, tol: real)
    requires input > 0.0 && tol >= 0.0 && e > -1.0 && x * x == input * (1.0 + ErrorAfter(6, e))
    ensures Accurate(input, x, tol) <==> ErrorAfter(6, e) <= tol
  {
    NextErrorIsPositive(ErrorAfter(5, e));
    ScaledError(input, x * x, ErrorAfter(6, e), tol);
  }

  /**
   With the error `e` of the first guess, the result is accurate if and only if the steps
   are enough. For arguments from one on they always are.
   */
  lemma AccurateIffEnoughSteps(input: real, e: real, tol: real)
    requires input > 0.0 && if input >= 1.0 then -0.75 < e <= 0.0 else e == ErrorOfOne(input)
    requires tol >= FINEST
    ensures e > -1.0
    ensures forall x :: x * x == input * (1.0 + ErrorAfter(6, e)) ==>
                          (Accurate(input, x, tol) <==> EnoughSteps(input, tol))
  {
    if input >= 1.0 {
      SixStepsSuffice(e);
    } else {
      ErrorOfOneIsPositive(input);
    }
    forall x | x * x == input * (1.0 + ErrorAfter(6, e))
      ensures Accurate(input, x, tol) <==> EnoughSteps(input, tol)
    {
      AccurateIffSmallError(input, e, x, tol);
    }
  }

  lemma {:induction false} ErrorAfterMonotone(i: nat, e: real, e': real)
    requires 0.0 <= e <= e'
    ensures 0.0 <= ErrorAfter(i, e) <= ErrorAfter(i, e')
  {
    if i == 0 {
    } else {
      ErrorAfterMonotone(i - 1, e, e');
      NextErrorIsPositive(ErrorAfter(i - 1, e));
      NextErrorMonotone(ErrorAfter(i - 1, e), ErrorAfter(i - 1, e'));
    }
  }

  /** What is enough for an argument is enough for every larger one. */
  lemma EnoughStepsUpwards(a: real, b: real, tol: real)
    requires 0.0 < a <= b && EnoughSteps(a, tol)
    ensures EnoughSteps(b, tol)
  {
    if b < 1.0 {
      ErrorOfOneIsPositive(a);
      ErrorOfOneIsPositive(b);
      FractionOrder(1.0, b, 1.0, a);
      ErrorAfterMonotone(6, ErrorOfOne(b), ErrorOfOne(a));
    }
  }

  /** The error of one as a guess, for arguments on either side of two bounds. */
  lemma ErrorOfOneBounds(input: real, low: real, high: real, small: real, large: real)
    requires 0.0 < input < 1.0 && low > 0.0 && high > 0.0
    requires 1.0 <= (1.0 + small) * high && (1.0 + large) * low <= 1.0
    ensures input >= high ==> 0.0 < ErrorOfOne(input) <= small
    ensures input <= low ==> ErrorOfOne(input) >= large
  {
    ErrorOfOneIsPositive(input);
    var q := 1.0 / input;
    assert q * input == 1.0;
    if input >= high {
      assert q * high <= 1.0;
    }
    if input <= low {
      assert q * low >= 1.0;
    }
  }

  /** At the accuracy of a `double`, the arguments served begin between 0.0808 and 0.0809. */
  lemma EnoughStepsThreshold(input: real)
    requires input > 0.0
    ensures input >= 0.0809 ==> EnoughSteps(input, DOUBLE_EPSILON)
    ensures input <= 0.0808 ==> !EnoughSteps(input, DOUBLE_EPSILON)
  {
    if input < 1.0 {
      ErrorOfOneBounds(input, 0.0808, 0.0809, 11.3609395, 11.3762376);
      if input >= 0.0809 {
        SixStepsSufficeForDouble(ErrorOfOne(input));
      }
      if input <= 0.0808 {
        SixStepsDoNotSufficeForDouble(ErrorOfOne(input));
      }
    }
  }

  /** At the finest accuracy they begin between 0.18536 and 0.18537. */
  lemma FinestThreshold(input: real)
    requires input > 0.0
    ensures input >= 0.18537 ==> EnoughSteps(input, FINEST)
    ensures input <= 0.18536 ==> !EnoughSteps(input, FINEST)
  {
    if input < 1.0 {
      ErrorOfOneBounds(input, 0.18536, 0.18537, 4.39461618, 4.3949072);
      if input >= 0.18537 {
        SixStepsSuffice(ErrorOfOne(input));
      }
      if input <= 0.18536 {
        SixStepsDoNotSuffice(ErrorOfOne(input));
      }
    }
  }

  /** For the argument 0.01 the square is off by more than a hundred-thousandth of it. */
  lemma HundredthIsInaccurate()
    ensures !EnoughSteps(0.01, 0.00001)
  {
    var e := ErrorOfOne(0.01);
    assert e == 99.0 == ErrorAfter(0, e);
    ErrorAtLeast(0, e, 99.0, 24.5025);
    ErrorAtLeast(1, e, 24.5025, 5.885427);
    ErrorAtLeast(2, e, 5.885427, 1.257665);
    ErrorAtLeast(3, e, 1.257665, 0.17515);
    ErrorAtLeast(4, e, 0.17515, 0.0065262);
    ErrorAtLeast(5, e, 0.0065262, 0.0000105);
  }

  lemma MulOrder(m: real, a: real, b: real)
    requires m > 0.0 && a <= b
    ensures m * a <= m * b
  {
  }

  lemma FactorOrder(q: real, d: real)
    requires d > 0.0 && q * d == (d + 1.0) * (d + 1.0)
    ensures q >= d
  {
    assert (d + 1.0) * (d + 1.0) == d * d + 2.0 * d + 1.0;
    if q < d {
      MulOrder(d, q, d);
    }
  }

  lemma QuarterOfError(before: real, m: real, e: real)
    requires before > -1.0 && m > 0.0 && m * (before + 1.0) >= e
    ensures 4.0 * m * (NextError(before) + 1.0) >= e
  {
    var next, d := NextError(before), 1.0 + before;
    assert next * (4.0 * d) == before * before;
    assert (4.0 * (next + 1.0)) * d == (d + 1.0) * (d + 1.0);
    FactorOrder(4.0 * (next + 1.0), d);
    MulOrder(m, d, 4.0 * (next + 1.0));
    assert m * (4.0 * (next + 1.0)) == 4.0 * m * (next + 1.0);
  }

  /** A step shrinks an error to not much less than a quarter of it. */
  lemma {:induction false} ErrorShrinksSlowly(i: nat, e: real, n: real)
    requires e >= 0.0 && n == Pow2(2 * i) as real
    ensures n * (ErrorAfter(i, e) + 1.0) >= e
  {
    if i == 0 {
      assert n == 1.0;
    } else {
      var m := Pow2(2 * (i - 1)) as real;
      assert Pow2(2 * i) == 2 * Pow2(2 * i - 1) == 4 * Pow2(2 * (i - 1));
      ErrorShrinksSlowly(i - 1, e, m);
      QuarterOfError(ErrorAfter(i - 1, e), m, e);
    }
  }

  /** However little accuracy is asked for, for small enough arguments six steps are too few. */
  lemma SmallArgumentsAreInaccurate(input: real, tol: real)
    requires input > 0.0 && tol >= 0.0 && input * (4096.0 * (tol + 1.0) + 1.0) < 1.0
    ensures !EnoughSteps(input, tol)
  {
    var bound := 4096.0 * (tol + 1.0) + 1.0;
    assert bound >= 1.0 && input < 1.0;
    ErrorOfOneIsPositive(input);
    var q, e := 1.0 / input, ErrorOfOne(input);
    assert q * input == 1.0;
    assert q > bound;
    assert Pow2(12) == 4096;
    ErrorShrinksSlowly(6, e, 4096.0);
  }

  /** The root's square is known exactly from the first guess, which is 1 below 1 and else near the root. */
  ghost predicate IsRoot(input: real, x: real, guess: nat)
    requires input > 0.0
  {
    && x > 0.0 && guess > 0 && GuessError(input, guess) > -1.0
    && x * x == input * (1.0 + ErrorAfter(6, GuessError(input, guess)))
    && (input < 1.0 ==> guess == 1)
    && (1.0 <= input < TWO_TO_32 ==> -0.75 < GuessError(input, guess) <= 0.0)
  }

  /** Every accuracy is decided by the error `e` of the guess, and by the argument where it fits into 32 bits. */
  ghost predicate IsAccurateAsDecided(input: real, x: real, e: real)
    requires input > 0.0 && e > -1.0
  {
    && (forall tol :: tol >= 0.0 ==> (Accurate(input, x, tol) <==> ErrorAfter(6, e) <= tol))
    && (input < TWO_TO_32 ==> forall tol :: tol >= FINEST ==> (Accurate(input, x, tol) <==> EnoughSteps(input, tol)))
  }

  /** The exact conditions, for every accuracy asked for. */
  lemma AccuracyDecided(input: real, e: real, x: real)
    requires input > 0.0 && e > -1.0 && x * x == input * (1.0 + ErrorAfter(6, e))
    requires if input < 1.0 then e == ErrorOfOne(input) else input < TWO_TO_32 ==> -0.75 < e <= 0.0
    ensures IsAccurateAsDecided(input, x, e)
  {
    forall tol | tol >= 0.0
      ensures Accurate(input, x, tol) <==> ErrorAfter(6, e) <= tol
    {
      AccurateIffSmallError(input, e, x, tol);
    }
    if input < TWO_TO_32 {
      forall tol | tol >= FINEST
        ensures Accurate(input, x, tol) <==> EnoughSteps(input, tol)
      {
        AccurateIffEnoughSteps(input, e, tol);
      }
    }
  }

  /** The part for positive arguments. */
  method PositiveRoot(input: real, converted: nat) returns (x: real, ghost guess: nat)
    requires input > 0.0 && IsConverted(input, converted)
    ensures IsRoot(input, x, guess)
    ensures input < 1.0 ==> GuessError(input, guess) == ErrorOfOne(input)
  {
    var first := FirstGuess(input, converted);
    guess := first;
    GuessErrorRange(input, guess);
    x := Heron(input, first as real, GuessError(input, guess));
  }

  /**
   The square root of a positive number: the error that six steps from the first guess
   leave is known exactly. `converted` is the argument converted to 32 bits; only
   when the argument does not fit is nothing known about the guess.
   */
  method SqrtD(input: real, converted: nat) returns (x: real, ghost guess: nat)
    requires IsConverted(input, converted)
    ensures input <= 0.0 ==> x == input
    ensures input > 0.0 ==> IsRoot(input, x, guess) && IsAccurateAsDecided(input, x, GuessError(input, guess))
  {
    guess := 1;
    if input <= 0.0 {
      return input, guess;
    }
    x, guess := PositiveRoot(input, converted);
    AccuracyDecided(input, GuessError(input, guess), x);
  }
}
