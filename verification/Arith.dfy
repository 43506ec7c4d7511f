/** Multiplication and division facts shared by the models. */
module Arith {
  lemma Distributes(a: int, b: int, d: int)
    ensures (a + b) * d == a * d + b * d
  {
  }

  lemma MulMonotone(a: int, b: int, d: int)
    requires a <= b && 0 <= d
    ensures a * d <= b * d
  {
    assert (b - a) * d >= 0;
  }

  lemma QuotientUnique(d: int, q: int, m: int, q': int, m': int)
    requires 0 <= m < d && 0 <= m' < d && d * q + m == d * q' + m'
    ensures q == q' && m == m'
  {
    if q < q' {
      MulMonotone(q + 1, q', d);
    } else if q' < q {
      MulMonotone(q' + 1, q, d);
    }
  }

  lemma DivUnique(a: int, d: int, q: int, m: int)
    requires 0 <= m < d && a == d * q + m
    ensures a / d == q && a % d == m
  {
    QuotientUnique(d, q, m, a / d, a % d);
  }

  lemma QuotientBetween(a: int, d: int, lo: int, hi: int)
    requires 0 < d && lo * d <= a < hi * d
    ensures lo <= a / d < hi
  {
    var q := a / d;
    assert a == d * q + a % d;
    if q < lo {
      MulMonotone(q + 1, lo, d);
    } else if q >= hi {
      MulMonotone(hi, q, d);
    }
  }

  /** Dividing twice is dividing by the product. */
  lemma DivDiv(a: nat, b: nat, c: nat)
    requires 0 < b && 0 < c
    ensures 0 < b * c && a / b / c == a / (b * c)
  {
    var q, r := a / b, a % b;
    var q', r' := q / c, q % c;
    assert a == b * q + r && q == c * q' + r';
    assert b * (c * q' + r') == b * c * q' + b * r';
    MulMonotone(r' + 1, c, b);
    assert 0 <= b * r' + r < b * c;
    DivUnique(a, b * c, q', b * r' + r);
  }

  /** The start of the `n`-th run of `s`, as a loop reaches it. */
  function RunStart(s: nat, n: nat): nat
  {
    if n == 0 then 0 else RunStart(s, n - 1) + s
  }

  lemma {:induction false} RunStartValue(s: nat, n: nat)
    ensures RunStart(s, n) == s * n
  {
    if n == 0 {
    } else {
      RunStartValue(s, n - 1);
      Distributes(n - 1, 1, s);
    }
  }

  /** Index `c` lies in the `x`-th of `n` runs of `s`. */
  lemma RunIndex(s: nat, n: nat, x: nat, c: int)
    requires x < n && RunStart(s, x) <= c < RunStart(s, x) + s
    ensures c / s == x && 0 <= c < s * n
  {
    RunStartValue(s, x);
    MulMonotone(x + 1, n, s);
    DivUnique(c, s, x, c - s * x);
  }

  function Pow2(k: nat): (r: nat)
    ensures r > 0
  {
    if k == 0 then 1 else 2 * Pow2(k - 1)
  }

  lemma {:induction false} Pow2Monotone(i: nat, j: nat)
    requires i <= j
    ensures Pow2(i) <= Pow2(j)
  {
    if i == j {
    } else {
      Pow2Monotone(i, j - 1);
    }
  }

  lemma TwiceProduct(x: nat, y: nat)
    ensures x * (2 * y) == 2 * (x * y)
  {
  }

  lemma {:induction false} Pow2Add(i: nat, j: nat)
    ensures Pow2(i + j) == Pow2(i) * Pow2(j)
  {
    if j == 0 {
    } else {
      Pow2Add(i, j - 1);
      assert Pow2(i + j) == 2 * Pow2(i + j - 1) && Pow2(j) == 2 * Pow2(j - 1);
      TwiceProduct(Pow2(i), Pow2(j - 1));
    }
  }

  lemma Pow2Values()
    ensures Pow2(15) == 0x8000 && Pow2(16) == 0x1_0000
    ensures Pow2(31) == 0x8000_0000 && Pow2(32) == 0x1_0000_0000
  {
    assert Pow2(7) == 0x80 && Pow2(8) == 0x100;
    Pow2Add(7, 8);
    Pow2Add(8, 8);
    Pow2Add(15, 16);
    Pow2Add(16, 16);
  }
}
