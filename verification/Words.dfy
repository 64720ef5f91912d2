/** Machine words of the C sources, as bounded integers with their wrap-around written out. */
module Words {
  const TWO_32: int := 0x1_0000_0000
  const TWO_64: int := 0x1_0000_0000_0000_0000

  type Byte = b: int | 0 <= b < 256
  type Word32 = w: int | 0 <= w < TWO_32
  type Word64 = w: int | 0 <= w < TWO_64

  /** The value a `uint32_t` holds after being assigned the integer `x`. */
  function U32(x: int): (w: Word32) {
    x % TWO_32
  }

  /** The value a `uint64_t` holds after being assigned the integer `x`. */
  function U64(x: int): (w: Word64) {
    x % TWO_64
  }

  function Pow2(n: nat): (p: nat)
    ensures p > 0
  {
    if n == 0 then 1 else 2 * Pow2(n - 1)
  }

  /** Bitwise exclusive or of the low `n` bits. */
  function XorBits(a: nat, b: nat, n: nat): (x: nat)
    ensures x < Pow2(n)
  {
    if n == 0 then 0 else (a + b) % 2 + 2 * XorBits(a / 2, b / 2, n - 1)
  }

  lemma Parity(a: nat, b: nat, x: nat)
    requires x % 2 == (a + b) % 2
    ensures (x + b) % 2 == a % 2
  {
  }

  lemma XorStep(a: nat, b: nat, n: nat)
    requires n > 0
    ensures XorBits(a, b, n) / 2 == XorBits(a / 2, b / 2, n - 1)
    ensures XorBits(a, b, n) % 2 == (a + b) % 2
  {
  }

  lemma {:induction false} XorBitsInvolutive(a: nat, b: nat, n: nat)
    requires a < Pow2(n)
    ensures XorBits(XorBits(a, b, n), b, n) == a
  {
    if n > 0 {
      var x := XorBits(a, b, n);
      XorBitsInvolutive(a / 2, b / 2, n - 1);
      XorStep(a, b, n);
      XorStep(x, b, n);
      Parity(a, b, x);
    }
  }

  lemma {:induction false} Pow2Add(m: nat, n: nat)
    ensures Pow2(m) * Pow2(n) == Pow2(m + n)
  {
    if m > 0 {
      Pow2Add(m - 1, n);
      assert Pow2(m + n) == 2 * Pow2(m - 1 + n);
      assert Pow2(m) * Pow2(n) == 2 * (Pow2(m - 1) * Pow2(n));
    }
  }

  lemma Pow2Double(n: nat, v: nat)
    requires Pow2(n) == v
    ensures Pow2(n + n) == v * v
  {
    Pow2Add(n, n);
  }

  lemma Pow2OfWords()
    ensures Pow2(32) == TWO_32
    ensures Pow2(64) == TWO_64
  {
    assert Pow2(8) == 256;
    Pow2Double(8, 256);
    Pow2Double(16, 0x1_0000);
    Pow2Double(32, TWO_32);
  }

  lemma {:induction false} XorBitsSwap(a: nat, b: nat, c: nat, n: nat)
    ensures XorBits(XorBits(a, b, n), c, n) == XorBits(XorBits(a, c, n), b, n)
  {
    if n > 0 {
      XorBitsSwap(a / 2, b / 2, c / 2, n - 1);
      XorTwice(a, b, c, n);
      XorTwice(a, c, b, n);
    }
  }

  lemma {:induction false} XorBitsSymmetric(a: nat, b: nat, n: nat)
    ensures XorBits(a, b, n) == XorBits(b, a, n)
  {
    if n > 0 {
      XorBitsSymmetric(a / 2, b / 2, n - 1);
    }
  }

  lemma XorTwice(a: nat, b: nat, c: nat, n: nat)
    requires n > 0
    ensures XorBits(XorBits(a, b, n), c, n)
         == (a + b + c) % 2 + 2 * XorBits(XorBits(a / 2, b / 2, n - 1), c / 2, n - 1)
  {
    XorStep(a, b, n);
    ParityOfSum(a, b, c, XorBits(a, b, n));
  }

  lemma ParityOfSum(a: nat, b: nat, c: nat, ab: nat)
    requires ab % 2 == (a + b) % 2
    ensures (ab + c) % 2 == (a + b + c) % 2
  {
  }

  function Xor64(a: Word64, b: Word64): (x: Word64) {
    Pow2OfWords();
    XorBits(a, b, 64)
  }

  lemma Xor64Involutive(a: Word64, b: Word64)
    ensures Xor64(Xor64(a, b), b) == a
  {
    Pow2OfWords();
    XorBitsInvolutive(a, b, 64);
  }

  lemma {:induction false} XorBitsZero(a: nat, n: nat)
    requires a < Pow2(n)
    ensures XorBits(a, 0, n) == a
  {
    if n > 0 {
      XorBitsZero(a / 2, n - 1);
    }
  }

  lemma Xor64Zero(a: Word64)
    ensures Xor64(a, 0) == a
  {
    Pow2OfWords();
    XorBitsZero(a, 64);
  }

  /** `(w >> c) | (w << (64 - c))`: the two halves occupy disjoint bits. */
  function Rotr64(w: Word64, c: nat): (r: Word64)
    requires 0 < c < 64
  {
    RotrBound(w, c);
    w / Pow2(c) + (w % Pow2(c)) * Pow2(64 - c)
  }

  lemma PowProduct(c: nat)
    requires 0 < c < 64
    ensures Pow2(c) * Pow2(64 - c) == TWO_64
  {
    Pow2Add(c, 64 - c);
    assert c + (64 - c) == 64;
    Pow2OfWords();
  }

  lemma RotrBound(w: Word64, c: nat)
    requires 0 < c < 64
    ensures 0 <= w / Pow2(c) < Pow2(64 - c)
    ensures 0 <= w / Pow2(c) + (w % Pow2(c)) * Pow2(64 - c) < TWO_64
  {
    PowProduct(c);
    HalvesBound(w, Pow2(c), Pow2(64 - c), TWO_64);
  }

  lemma QuotientBound(w: nat, p: nat, q: nat)
    requires p > 0 && w < p * q
    ensures w / p < q
  {
    assert w == (w / p) * p + w % p;
    if w / p >= q {
      MulMonotone(q, w / p, p);
      assert false;
    }
  }

  lemma HalvesBound(w: nat, p: nat, q: nat, m: nat)
    requires p > 0 && w < m && p * q == m
    ensures 0 <= w / p < q
    ensures 0 <= w / p + (w % p) * q < m
  {
    QuotientBound(w, p, q);
    MulMonotone(w % p, p - 1, q);
    assert (p - 1) * q == p * q - q;
  }

  /** Division of `uint32_t` values. */
  function Div32(a: Word32, b: Word32): (q: Word32)
    requires b > 0
    ensures q * b <= a < q * b + b
  {
    QuotientTimes(a, b);
    a / b
  }

  lemma QuotientTimes(n: nat, d: nat)
    requires d > 0
    ensures (n / d) * d <= n < (n / d) * d + d
    ensures 0 <= n / d <= n
  {
    MulMonotone(1, d, n / d);
  }

  lemma MulMonotone(a: int, b: int, m: nat)
    requires a <= b
    ensures a * m <= b * m
  {
    assert (b - a) * m >= 0;
  }

  /** Dividing `b * q + a` by `q` gives back its parts. */
  lemma DivModUnique(a: int, b: int, q: int)
    requires 0 <= a < q
    ensures (b * q + a) / q == b && (b * q + a) % q == a
  {
    var x := b * q + a;
    var d := x / q - b;
    assert x == (x / q) * q + x % q;
    assert d * q == a - x % q by { assert (x / q) * q == (b + d) * q == b * q + d * q; }
    if d > 0 {
      MulMonotone(1, d, q);
    } else if d < 0 {
      MulMonotone(d, -1, q);
    }
  }

  lemma RemainderOf(v: int, q: int, r: int, m: int)
    requires 0 <= r < m && v == q * m + r
    ensures v % m == r
  {
    DivModUnique(r, q, m);
  }

  lemma RotrInverse(w: Word64, c: nat)
    requires 0 < c < 64
    ensures Rotr64(Rotr64(w, c), 64 - c) == w
  {
    RotrBound(w, c);
    var p, q := Pow2(c), Pow2(64 - c);
    DivModUnique(w / p, w % p, q);
    assert w == (w / p) * p + w % p;
  }
}
