/** The rolling-word searches of Memory.c for needles of two, three and four bytes. */
module ShortNeedles {
  import opened MachineWord
  import opened Wrappers
  import opened Arith
  import opened Bits
  import opened Words
  import opened Shifts
  import opened TwoWay

  // ---------- Bytes as words ----------

  /** The `k` bytes at `t` as a number, the first one in front. */
  function Word(s: seq<byte>, t: nat, k: nat): nat
    requires t + k <= |s|
  {
    if k == 0 then 0 else 0x100 * Word(s, t, k - 1) + s[t + k - 1]
  }

  function Radix(k: nat): (r: nat)
    ensures r > 0
  {
    if k == 0 then 1 else 0x100 * Radix(k - 1)
  }

  lemma Radixes()
    ensures Radix(2) == 0x1_0000 && Radix(4) == 0x1_0000_0000 == 0x100 * Radix(3)
  {
    assert Radix(3) == 0x100_0000;
  }

  lemma LastDigit(x: int, b: byte, x': int, b': byte)
    requires 0x100 * x + b == 0x100 * x' + b'
    ensures x == x' && b == b'
  {
  }

  /** Equal words are equal bytes. */
  lemma {:induction false} SameWord(a: seq<byte>, t: nat, b: seq<byte>, u: nat, k: nat)
    requires t + k <= |a| && u + k <= |b|
    ensures Word(a, t, k) == Word(b, u, k) <==> a[t..t + k] == b[u..u + k]
  {
    if k == 0 {
    } else {
      SameWord(a, t, b, u, k - 1);
      assert a[t..t + k] == a[t..t + k - 1] + [a[t + k - 1]];
      assert b[u..u + k] == b[u..u + k - 1] + [b[u + k - 1]];
      if a[t..t + k] == b[u..u + k] {
        assert a[t..t + k][..k - 1] == b[u..u + k][..k - 1] && a[t..t + k][k - 1] == b[u..u + k][k - 1];
      }
      if Word(a, t, k) == Word(b, u, k) {
        LastDigit(Word(a, t, k - 1), a[t + k - 1], Word(b, u, k - 1), b[u + k - 1]);
      }
    }
  }

  lemma OccursIffSameWord(hay: seq<byte>, n: seq<byte>, t: nat)
    requires t + |n| <= |hay|
    ensures OccursAt(hay, n, t) <==> Word(hay, t, |n|) == Word(n, 0, |n|)
  {
    SameWord(hay, t, n, 0, |n|);
    assert n[0..0 + |n|] == n;
  }

  lemma FieldShifted(p: nat, a: byte, w: nat, b: byte)
    requires w < p
    ensures 0x100 * (p * a + w) + b == 0x100 * p * a + (0x100 * w + b)
    ensures 0x100 * w + b < 0x100 * p
  {
  }

  /** The first byte of a word, apart from the others. */
  lemma {:induction false} FirstByte(s: seq<byte>, t: nat, k: nat)
    requires t + k < |s|
    ensures Word(s, t, k + 1) == Radix(k) * s[t] + Word(s, t + 1, k)
    ensures Word(s, t + 1, k) < Radix(k)
  {
    if k == 0 {
      assert Word(s, t, k + 1) == 0x100 * Word(s, t, k) + s[t + k];
      assert Radix(k) * s[t] == s[t];
    } else {
      FirstByte(s, t, k - 1);
      FieldShifted(Radix(k - 1), s[t], Word(s, t + 1, k - 1), s[t + k]);
    }
  }

  lemma NoneInNext(hay: seq<byte>, n: seq<byte>, from: int, t: int)
    requires NoneIn(hay, n, from, t) && !OccursAt(hay, n, t)
    ensures NoneIn(hay, n, from, t + 1)
  {
  }

  // ---------- Words as `|` and `<<` make them ----------

  method Pack2(s: seq<byte>, t: nat) returns (w: nat)
    requires t + 2 <= |s|
    ensures w == Word(s, t, 2)
  {
    var a: nat, b: nat := s[t], s[t + 1];
    w := Or(0x100 * a, b);
    OrByte(a, b);
    assert Word(s, t, 1) == s[t];
  }

  lemma BytePowers()
    ensures Pow2(16) == 0x1_0000 && Pow2(24) == 0x100_0000
  {
    assert Pow2(8) == 0x100;
    Pow2Add(8, 8);
    Pow2Add(8, 16);
  }

  lemma OrFields(a: byte, b: byte, c: byte)
    ensures Or(0x100_0000 * a, 0x1_0000 * b) == 0x1_0000 * (0x100 * a + b)
    ensures Or(0x1_0000 * (0x100 * a + b), 0x100 * c) == 0x100 * (0x100 * (0x100 * a + b) + c)
  {
    BytePowers();
    OrField(a, 24, 0x1_0000 * b);
    OrField(0x100 * a + b, 16, 0x100 * c);
  }

  lemma WordOfThree(s: seq<byte>, t: nat)
    requires t + 3 <= |s|
    ensures Word(s, t, 3) == 0x100 * (0x100 * (s[t] as nat) + s[t + 1]) + s[t + 2]
  {
    assert Word(s, t, 1) == s[t];
    assert Word(s, t, 2) == 0x100 * Word(s, t, 1) + s[t + 1];
  }

  method Pack3(s: seq<byte>, t: nat) returns (w: nat)
    requires t + 3 <= |s|
    ensures w == 0x100 * Word(s, t, 3)
  {
    var a: nat, b: nat, c: nat := s[t], s[t + 1], s[t + 2];
    w := Or(Or(0x100_0000 * a, 0x1_0000 * b), 0x100 * c);
    OrFields(s[t], s[t + 1], s[t + 2]);
    WordOfThree(s, t);
  }

  method Pack4(s: seq<byte>, t: nat) returns (w: nat)
    requires t + 4 <= |s|
    ensures w == Word(s, t, 4)
  {
    var a: nat, b: nat, c: nat := s[t], s[t + 1], s[t + 2];
    w := Or(Or(Or(0x100_0000 * a, 0x1_0000 * b), 0x100 * c), s[t + 3]);
    OrFields(s[t], s[t + 1], s[t + 2]);
    WordOfThree(s, t);
    OrByte(Word(s, t, 3), s[t + 3]);
  }

  /** Shifting a word by a byte drops its first byte. */
  lemma ShiftedWord(s: seq<byte>, t: nat, k: nat)
    requires t + k < |s|
    ensures 0x100 * Word(s, t, k + 1) % Radix(k + 1) == 0x100 * Word(s, t + 1, k)
  {
    FirstByte(s, t, k);
    FieldShifted(Radix(k), s[t], Word(s, t + 1, k), 0);
    DivUnique(0x100 * Word(s, t, k + 1), Radix(k + 1), s[t], 0x100 * Word(s, t + 1, k));
  }

  /** `hw << 8 | c`, cut to 16 bits. */
  method Roll2(hw: nat, ghost s: seq<byte>, ghost t: nat, c: byte) returns (next: nat)
    requires t + 2 < |s| && c == s[t + 2] && hw == Word(s, t, 2)
    ensures next == Word(s, t + 1, 2)
  {
    var w := Or(0x100 * hw, c);
    assert w == Word(s, t, 3) by { OrByte(hw, c); }
    FirstByte(s, t, 2);
    DivUnique(w, Radix(2), s[t], Word(s, t + 1, 2));
    assert Radix(2) == 0x1_0000 by { Radixes(); }
    next := w % 0x1_0000;
  }

  /** `(hw | d) << 8` in 32 bits; the low byte of the word is clear. */
  method Roll3(hw: nat, ghost s: seq<byte>, ghost t: nat, d: byte) returns (next: nat)
    requires t + 3 < |s| && d == s[t + 3] && hw == 0x100 * Word(s, t, 3)
    ensures next == 0x100 * Word(s, t + 1, 3)
  {
    var w := Or(hw, d);
    assert w == Word(s, t, 4) by { OrByte(Word(s, t, 3), d); }
    ShiftedWord(s, t, 3);
    assert Radix(4) == WORD_MODULUS by { Radixes(); }
    next := 0x100 * w % WORD_MODULUS;
  }

  /** `hw << 8 | e` in 32 bits. */
  method Roll4(hw: nat, ghost s: seq<byte>, ghost t: nat, e: byte) returns (next: nat)
    requires t + 4 < |s| && e == s[t + 4] && hw == Word(s, t, 4)
    ensures next == Word(s, t + 1, 4)
  {
    next := Or(0x100 * hw % WORD_MODULUS, e);
    Radixes();
    ShiftedWord(s, t, 3);
    OrByte(Word(s, t + 1, 3), e);
  }

  // ---------- The searches ----------

  /** A 16-bit word rolls over the haystack. */
  method TwobyteMemmem(hay: seq<byte>, h0: uintn, k0: uintn, n: seq<byte>) returns (r: Option<uintn>)
    requires |n| == 2 <= k0 && h0 + k0 == |hay| < WORD_MODULUS
    ensures IsFirstOccurrence(hay, n, h0, r)
  {
    var nw := Pack2(n, 0);
    var hw := Pack2(hay, h0);
    var h, k := h0 + 2, k0 - 2;
    while k != 0
      invariant 0 <= k && h + k == |hay| && h0 + |n| <= h && NoneIn(hay, n, h0, h - |n|)
      invariant hw == Word(hay, h - |n|, |n|)
    {
      OccursIffSameWord(hay, n, h - |n|);
      if hw == nw {
        return Some(h - 2);
      }
      NoneInNext(hay, n, h0, h - |n|);
      hw := Roll2(hw, hay, h - |n|, hay[h]);
      k, h := k - 1, h + 1;
    }
    OccursIffSameWord(hay, n, h - |n|);
    r := if hw == nw then Some(h - 2) else None;
  }

  /** A 32-bit word whose low byte stays clear rolls over the haystack. */
  method ThreebyteMemmem(hay: seq<byte>, h0: uintn, k0: uintn, n: seq<byte>) returns (r: Option<uintn>)
    requires |n| == 3 <= k0 && h0 + k0 == |hay| < WORD_MODULUS
    ensures IsFirstOccurrence(hay, n, h0, r)
  {
    var nw := Pack3(n, 0);
    var hw := Pack3(hay, h0);
    var h, k := h0 + 3, k0 - 3;
    while k != 0
      invariant 0 <= k && h + k == |hay| && h0 + |n| <= h && NoneIn(hay, n, h0, h - |n|)
      invariant hw == 0x100 * Word(hay, h - |n|, |n|)
    {
      OccursIffSameWord(hay, n, h - |n|);
      if hw == nw {
        return Some(h - 3);
      }
      NoneInNext(hay, n, h0, h - |n|);
      hw := Roll3(hw, hay, h - |n|, hay[h]);
      k, h := k - 1, h + 1;
    }
    OccursIffSameWord(hay, n, h - |n|);
    r := if hw == nw then Some(h - 3) else None;
  }

  /** A full 32-bit word rolls over the haystack. */
  method FourbyteMemmem(hay: seq<byte>, h0: uintn, k0: uintn, n: seq<byte>) returns (r: Option<uintn>)
    requires |n| == 4 <= k0 && h0 + k0 == |hay| < WORD_MODULUS
    ensures IsFirstOccurrence(hay, n, h0, r)
  {
    var nw := Pack4(n, 0);
    var hw := Pack4(hay, h0);
    var h, k := h0 + 4, k0 - 4;
    while k != 0
      invariant 0 <= k && h + k == |hay| && h0 + |n| <= h && NoneIn(hay, n, h0, h - |n|)
      invariant hw == Word(hay, h - |n|, |n|)
    {
      OccursIffSameWord(hay, n, h - |n|);
      if hw == nw {
        return Some(h - 4);
      }
      NoneInNext(hay, n, h0, h - |n|);
      hw := Roll4(hw, hay, h - |n|, hay[h]);
      k, h := k - 1, h + 1;
    }
    OccursIffSameWord(hay, n, h - |n|);
    r := if hw == nw then Some(h - 4) else None;
  }
}
