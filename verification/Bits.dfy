/** The bit operations of C on unsigned words, bit by bit on natural numbers. */
module Bits {
  import opened Arith

  /** `n >> s` */
  function Shr(n: nat, s: nat): nat
  {
    if s == 0 then n else Shr(n / 2, s - 1)
  }

  /** `a | b` */
  function Or(a: nat, b: nat): nat
  {
    if a == 0 && b == 0 then 0
    else 2 * Or(a / 2, b / 2) + (if a % 2 == 1 || b % 2 == 1 then 1 else 0)
  }

  /** A shift to the right divides by a power of two. */
  lemma {:induction false} ShrIsQuotient(n: nat, s: nat)
    ensures Shr(n, s) == n / Pow2(s)
  {
    if s == 0 {
    } else {
      ShrIsQuotient(n / 2, s - 1);
      DivDiv(n, 2, Pow2(s - 1));
    }
  }

  /** Bit `k` of `a | b` is set exactly when it is in `a` or in `b`. */
  lemma {:induction false} OrBits(a: nat, b: nat, k: nat)
    ensures Shr(Or(a, b), k) % 2 == 1 <==> Shr(a, k) % 2 == 1 || Shr(b, k) % 2 == 1
  {
    if k == 0 {
    } else {
      OrBits(a / 2, b / 2, k - 1);
    }
  }

  lemma {:induction false} OrZero(n: nat)
    ensures Or(n, 0) == n
  {
    if n == 0 {
    } else {
      OrZero(n / 2);
    }
  }

  lemma {:induction false} ShrZero(s: nat)
    ensures Shr(0, s) == 0
  {
    if s == 0 {
    } else {
      ShrZero(s - 1);
    }
  }

  lemma {:induction false} ShrHalf(n: nat, s: nat)
    ensures Shr(n, s) / 2 == Shr(n / 2, s)
  {
    if s == 0 {
    } else {
      ShrHalf(n / 2, s - 1);
    }
  }

  lemma Halves(p: nat, h: nat, a: nat, b: nat)
    requires p == 2 * h
    ensures p * a == 2 * (h * a) && p * a / 2 == h * a && p * a % 2 == 0
    ensures p * a == 0 ==> h * a == 0
  {
  }

  /** Below a number shifted left by `k` bits, `|` writes a field of `k` bits. */
  lemma {:induction false} OrField(a: nat, k: nat, b: nat)
    requires b < Pow2(k)
    ensures Or(Pow2(k) * a, b) == Pow2(k) * a + b
  {
    if k == 0 {
      OrZero(a);
    } else {
      OrField(a, k - 1, b / 2);
      Halves(Pow2(k), Pow2(k - 1), a, b);
    }
  }

  /** In particular, a byte below one shifted by eight bits. */
  lemma OrByte(a: nat, b: nat)
    requires b < 0x100
    ensures Or(0x100 * a, b) == 0x100 * a + b
  {
    OrField(a, 8, b);
  }
}
