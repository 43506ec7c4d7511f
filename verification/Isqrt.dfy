/** `sqrt32` and `sqrt64` of MathLib.c. */
module Isqrt {
  import opened Arith

  /** The integer square root. */
  ghost predicate IsFloorSqrt(x: nat, r: nat)
  {
    r * r <= x < (r + 1) * (r + 1)
  }

  lemma SquareMonotone(a: nat, b: nat)
    requires a <= b
    ensures a * a <= b * b
  {
    MulMonotone(a, b, a);
    MulMonotone(a, b, b);
  }

  lemma FloorSqrtIsUnique(x: nat, r: nat, r': nat)
    requires IsFloorSqrt(x, r) && IsFloorSqrt(x, r')
    ensures r == r'
  {
    if r < r' {
      SquareMonotone(r + 1, r');
    } else if r' < r {
      SquareMonotone(r' + 1, r);
    }
  }

  /**
   The loop state for the digit `b`: `r` is the root's part above that digit, the
   remainder is `num`, and `res` holds `2 * r * b`.
   */
  ghost predicate DigitState(x: nat, top: nat, r: nat, b: nat, num: nat, res: nat, bit: nat)
  {
    && r * r <= x < (r + 2 * b) * (r + 2 * b) && r + 2 * b <= 2 * top
    && num == x - r * r && res == 2 * (r * b) && bit == b * b
  }

  /** The comparison asks whether the digit belongs to the root. */
  lemma TakeDigit(x: nat, top: nat, r: nat, b: nat, num: nat, res: nat, bit: nat)
    requires DigitState(x, top, r, b, num, res, bit)
    ensures res + bit == (r + b) * (r + b) - r * r
    ensures num >= res + bit <==> x >= (r + b) * (r + b)
    ensures res + 2 * bit == 2 * ((r + b) * b)
  {
  }

  /** None of the intermediate values reaches `4 * top * top`, the modulus of the word. */
  lemma NoOverflow(top: nat, r: nat, b: nat)
    requires r + 2 * b <= 2 * top && 0 < b
    ensures 2 * (r * b) + b * b <= 2 * ((r + b) * b) < 4 * (top * top)
  {
    var u := r + b;
    assert 2 * (u * b) == (u + b) * (u + b) - u * u - b * b;
    assert b * b > 0;
    SquareMonotone(u + b, 2 * top);
  }

  lemma SquareOfDouble(h: nat)
    ensures (2 * h) * (2 * h) == 4 * (h * h)
    ensures (2 * h) * (2 * h) / 4 == h * h
  {
  }

  /** After the digit `2 * h` has been decided, halving `res` and quartering `bit` give the next state. */
  lemma NextDigit(x: nat, top: nat, r: nat, h: nat, num: nat, res: nat)
    requires r * r <= x < (r + 2 * h) * (r + 2 * h) && r + 2 * h <= 2 * top
    requires num == x - r * r && res == 2 * (r * (2 * h))
    ensures DigitState(x, top, r, h, num, res / 2, h * h)
  {
    assert r * (2 * h) == 2 * (r * h);
  }

  /** One pass of the loop. */
  lemma DigitStep(x: nat, top: nat, i: nat, r: nat, num: nat, res: nat, bit: nat) returns (r': nat)
    requires DigitState(x, top, r, Pow2(i), num, res, bit)
    ensures bit > 0 && res + bit < 4 * (top * top) && res + bit * 2 < 4 * (top * top)
    ensures var take := num >= res + bit;
            var num', res' := if take then num - (res + bit) else num, (if take then res + bit * 2 else res) / 2;
            if i == 0 then bit / 4 == 0 && res' == r' && IsFloorSqrt(x, r')
            else DigitState(x, top, r', Pow2(i - 1), num', res', bit / 4)
  {
    var b := Pow2(i);
    TakeDigit(x, top, r, b, num, res, bit);
    NoOverflow(top, r, b);
    var take := num >= res + bit;
    r' := if take then r + b else r;
    if i > 0 {
      SquareOfDouble(Pow2(i - 1));
      NextDigit(x, top, r', Pow2(i - 1), if take then num - (res + bit) else num, if take then res + bit * 2 else res);
    }
  }

  /** The first loop: from `bit0` down to the highest power of four that is at most the argument. */
  method StartBit(input: nat, ghost e: nat, bit0: nat) returns (bit: nat, ghost i: int)
    requires bit0 == Pow2(e) * Pow2(e) && input < 4 * bit0
    ensures -1 <= i <= e
    ensures i == -1 ==> bit == 0 && input == 0
    ensures i >= 0 ==> bit == Pow2(i) * Pow2(i) && input < 4 * bit
  {
    bit, i := bit0, e;
    while bit > input
      invariant -1 <= i <= e
      invariant i == -1 ==> bit == 0 && input == 0
      invariant i >= 0 ==> bit == Pow2(i) * Pow2(i) && input < 4 * bit
      decreases bit
    {
      if i > 0 {
        SquareOfDouble(Pow2(i - 1));
      }
      bit := bit / 4;
      i := i - 1;
    }
  }

  lemma StartState(x: nat, e: nat, i: nat, bit: nat)
    requires i <= e && bit == Pow2(i) * Pow2(i) && x < 4 * bit
    ensures DigitState(x, Pow2(e), 0, Pow2(i), x, 0, bit)
  {
    SquareOfDouble(Pow2(i));
    Pow2Monotone(i, e);
  }

  /**
   The common body of the two functions; the square of `2 to the e` is the constant
   that `bit` starts with, and four times it the modulus of the word.
   */
  method DigitByDigit(input: nat, ghost e: nat, bit0: nat) returns (res: nat)
    requires bit0 == Pow2(e) * Pow2(e) && input < 4 * bit0
    ensures IsFloorSqrt(input, res)
  {
    res := 0;
    var bit: nat, num: nat := 0, input;
    ghost var i, r: nat, top := 0, 0, Pow2(e);
    bit, i := StartBit(input, e, bit0);
    if i >= 0 {
      StartState(input, e, i, bit);
    }
    while bit != 0
      invariant -1 <= i <= e
      invariant i == -1 ==> bit == 0 && res == r && IsFloorSqrt(input, r)
      invariant i >= 0 ==> DigitState(input, top, r, Pow2(i), num, res, bit)
      decreases bit
    {
      ghost var next := DigitStep(input, top, i, r, num, res, bit);
      if num >= res + bit {
        num := num - (res + bit);
        res := res + bit * 2;
      }
      res := res / 2;
      bit := bit / 4;
      r := next;
      i := i - 1;
    }
  }

  /** `bit` starts at 2 to the 30th, in a word of 32 bits. */
  method Sqrt32(input: nat) returns (res: nat)
    requires input < 0x1_0000_0000
    ensures IsFloorSqrt(input, res) && res < 0x1_0000
  {
    Pow2Values();
    res := DigitByDigit(input, 15, 0x4000_0000);
    if res >= 0x1_0000 {
      SquareMonotone(0x1_0000, res);
    }
  }

  /** `bit` starts at 2 to the 62nd, in a word of 64 bits. */
  method Sqrt64(input: nat) returns (res: nat)
    requires input < 0x1_0000_0000_0000_0000
    ensures IsFloorSqrt(input, res) && res < 0x1_0000_0000
  {
    Pow2Values();
    res := DigitByDigit(input, 31, 0x4000_0000_0000_0000);
    if res >= 0x1_0000_0000 {
      SquareMonotone(0x1_0000_0000, res);
    }
  }
}
