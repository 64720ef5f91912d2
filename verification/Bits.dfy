/** The word operations bit by bit: what exclusive or and rotation mean, apart from how they are computed. */
module Bits {
  import opened Words

  /** Bit j of `w`, the least significant being bit 0. */
  function Bit(w: nat, j: nat): (b: nat)
    ensures b < 2
    decreases j
  {
    if j == 0 then w % 2 else Bit(w / 2, j - 1)
  }

  lemma {:induction false} XorBitsBit(a: nat, b: nat, n: nat, j: nat)
    requires j < n
    ensures Bit(XorBits(a, b, n), j) == (Bit(a, j) + Bit(b, j)) % 2
    decreases j
  {
    hide XorBits;
    XorStep(a, b, n);
    if j > 0 {
      XorBitsBit(a / 2, b / 2, n - 1, j - 1);
    }
  }

  /** Exclusive or adds each pair of bits modulo 2. */
  lemma XorBit(a: Word64, b: Word64, j: nat)
    requires j < 64
    ensures Bit(Xor64(a, b), j) == (Bit(a, j) + Bit(b, j)) % 2
  {
    XorBitsBit(a, b, 64, j);
  }

  lemma HalfOfQuotient(w: nat, p: nat)
    requires p > 0
    ensures w / 2 / p == w / (2 * p)
  {
    var q, r := w / 2 / p, w / 2 % p;
    assert w / 2 == q * p + r;
    assert w == q * (2 * p) + (2 * r + w % 2) by { assert q * (2 * p) == 2 * (q * p); }
    DivModUnique(2 * r + w % 2, q, 2 * p);
  }

  lemma HalfOfRemainder(w: nat, p: nat)
    requires p > 0
    ensures w % (2 * p) == w % 2 + 2 * (w / 2 % p)
  {
    var q, r := w / 2 / p, w / 2 % p;
    assert w / 2 == q * p + r;
    assert w == q * (2 * p) + (2 * r + w % 2) by { assert q * (2 * p) == 2 * (q * p); }
    DivModUnique(2 * r + w % 2, q, 2 * p);
  }

  lemma {:induction false} QuotientBit(w: nat, c: nat, j: nat, p: nat, q: nat)
    requires p > 0 && p == Pow2(c) && q == w / p
    ensures Bit(q, j) == Bit(w, j + c)
    decreases c
  {
    if c == 0 {
      assert p == 1;
    } else {
      var h := Pow2(c - 1);
      assert p == 2 * h;
      hide Pow2;
      HalfOfQuotient(w, h);
      QuotientBit(w / 2, c - 1, j, h, q);
    }
  }

  lemma {:induction false} RemainderBit(w: nat, c: nat, j: nat, p: nat)
    requires j < c && p > 0 && p == Pow2(c)
    ensures Bit(w % p, j) == Bit(w, j)
    decreases c
  {
    var h := Pow2(c - 1);
    assert p == 2 * h;
    HalfOfRemainder(w, h);
    var r := w / 2 % h;
    assert w % p == w % 2 + 2 * r;
    if j > 0 {
      assert (w % p) / 2 == r;
      RemainderBit(w / 2, c - 1, j - 1, h);
    }
  }

  /** Bits below m come from `x`, those from m on from `y`. */
  lemma {:induction false} BitOfJoined(x: nat, y: nat, m: nat, j: nat)
    requires x < Pow2(m)
    ensures Bit(x + y * Pow2(m), j) == if j < m then Bit(x, j) else Bit(y, j - m)
    decreases m
  {
    if m == 0 {
      assert x == 0;
    } else {
      var v := x + y * Pow2(m);
      assert y * Pow2(m) == 2 * (y * Pow2(m - 1));
      assert v % 2 == x % 2 && v / 2 == x / 2 + y * Pow2(m - 1);
      if j > 0 {
        BitOfJoined(x / 2, y, m - 1, j - 1);
      }
    }
  }

  /** Rotating right by c moves bit j + c, counted cyclically, to place j. */
  lemma RotrBit(w: Word64, c: nat, j: nat)
    requires 0 < c < 64 && j < 64
    ensures Bit(Rotr64(w, c), j) == Bit(w, (j + c) % 64)
  {
    hide Bit, Pow2;
    var p := Pow2(c);
    RotrBound(w, c);
    BitOfJoined(w / p, w % p, 64 - c, j);
    if j < 64 - c {
      QuotientBit(w, c, j, p, w / p);
    } else {
      RemainderBit(w, c, j - (64 - c), p);
    }
  }
}
