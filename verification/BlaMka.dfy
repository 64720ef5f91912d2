/** The BlaMka permutation of blamka-round-ref.h. */
module BlaMka {
  import opened Words
  import opened Mixing

  /** `x + y + 2 * lo(x) * lo(y)` in 64-bit arithmetic. */
  function FBlaMka(x: Word64, y: Word64): (r: Word64) {
    var xy := (x % TWO_32) * (y % TWO_32);
    U64(x + y + 2 * xy)
  }

  // ---- inverting fBlaMka: an odd number is a unit modulo every power of two ----

  /** The inverse of the odd number `a` modulo 2^n, lifted one bit at a time. */
  function OddInverse(a: nat, n: nat): (t: nat)
    requires a % 2 == 1
    decreases a, n
  {
    if n <= 1 then 1
    else
      var t := OddInverse(a, n - 1);
      if (a * t) % Pow2(n) == 1 then t else t + Pow2(n - 1)
  }

  lemma LiftEven(v: nat, j: nat, p: nat)
    requires p > 0 && v == (2 * j) * p + 1
    ensures v % (2 * p) == 1
  {
    assert (2 * j) * p == j * (2 * p);
    DivModUnique(1, j, 2 * p);
  }

  lemma LiftOdd(v: nat, j: nat, h: nat, p: nat)
    requires p > 0 && v == (2 * j + 1) * p + 1
    ensures (v + (2 * h + 1) * p) % (2 * p) == 1
  {
    assert (2 * j + 1) * p + (2 * h + 1) * p == (2 * j + 1 + (2 * h + 1)) * p;
    LiftEven(v + (2 * h + 1) * p, j + h + 1, p);
  }

  lemma {:induction false} OddInverseCorrect(a: nat, n: nat)
    requires a % 2 == 1 && n >= 1
    ensures (a * OddInverse(a, n)) % Pow2(n) == 1
  {
    if n == 1 {
      assert Pow2(1) == 2;
    } else {
      var t, p := OddInverse(a, n - 1), Pow2(n - 1);
      OddInverseCorrect(a, n - 1);
      var v := a * t;
      assert Pow2(n) == 2 * p;
      LiftInverse(a, t, p);
    }
  }

  /** An inverse modulo p, or that inverse plus p, is an inverse modulo 2p. */
  lemma LiftInverse(a: nat, t: nat, p: nat)
    requires a % 2 == 1 && p > 0 && (a * t) % p == 1
    ensures (a * t) % (2 * p) == 1 || (a * (t + p)) % (2 * p) == 1
  {
    var v := a * t;
    var q := v / p;
    assert v == q * p + 1;
    if q % 2 == 0 {
      LiftEven(v, q / 2, p);
    } else {
      LiftOdd(v, q / 2, a / 2, p);
      assert a * (t + p) == v + a * p;
    }
  }

  /** The low half of the `x` with `FBlaMka(x, y) == z`. */
  function LowOfPreimage(z: Word64, y: Word64): (lo: Word32) {
    U32(U32(z - y) * OddInverse(1 + 2 * (y % TWO_32), 32))
  }

  /** The `x` with `FBlaMka(x, y) == z`. */
  function UnFBlaMka(z: Word64, y: Word64): (x: Word64) {
    U64(z - y - 2 * (LowOfPreimage(z, y) * (y % TWO_32)))
  }

  /** Multiplying by a unit and then by its inverse changes nothing modulo m. */
  lemma UnitCancel(lo: int, u: int, inv: int, w: int, i: int, m: int)
    requires 0 <= lo < m && 0 <= u * inv
    requires (u * inv) % m == 1
    requires w == lo * u - i * m
    ensures (w * inv) % m == lo
  {
    var j := (u * inv) / m;
    assert u * inv == j * m + 1;
    assert lo * u * inv == lo * (u * inv) == lo * (j * m) + lo == (lo * j) * m + lo;
    assert (i * m) * inv == (i * inv) * m;
    assert w * inv == lo * u * inv - (i * m) * inv;
    assert w * inv == (lo * j - i * inv) * m + lo;
    RemainderOf(w * inv, lo * j - i * inv, lo, m);
  }

  /** Adding and subtracting the same amount cancels modulo 2^64. */
  lemma WrapCancels(x: Word64, d: int)
    ensures U64(U64(x + d) - d) == x
  {
    var k := (x + d) / TWO_64;
    assert U64(x + d) == x + d - k * TWO_64;
    RemainderOf(U64(x + d) - d, -k, x, TWO_64);
  }

  lemma LowHalfOfSum(x: Word64, y: Word64, p: int) returns (i: int)
    ensures U32(U64(x + y + 2 * p) - y) == x % TWO_32 + 2 * p - i * TWO_32
  {
    var k := (x + y + 2 * p) / TWO_64;
    var z := x + y + 2 * p - k * TWO_64;
    var d := (z - y) / TWO_32;
    i := k * TWO_32 + d - x / TWO_32;
  }

  lemma LowHalfOfDifference(z: Word64, y: Word64, lo: Word32, p: int)
    requires (lo + 2 * p - U32(z - y)) % TWO_32 == 0
    ensures U64(z - y - 2 * p) % TWO_32 == lo
  {
    var i := (lo + 2 * p - U32(z - y)) / TWO_32;
    var d, k := (z - y) / TWO_32, (z - y - 2 * p) / TWO_64;
    RemainderOf(U64(z - y - 2 * p), d - i - k * TWO_32, lo, TWO_32);
  }

  lemma LowOfImage(x: Word64, y: Word64, p: int)
    requires p == (x % TWO_32) * (y % TWO_32)
    ensures LowOfPreimage(FBlaMka(x, y), y) == x % TWO_32
  {
    var xl, u := x % TWO_32, 1 + 2 * (y % TWO_32);
    OddInverseOf32(u);
    FBlaMkaOfLow(x, y, p);
    hide FBlaMka, OddInverse;
    var i := LowHalfOfSum(x, y, p);
    Distribute(xl, y % TWO_32);
    UnitCancel(xl, u, OddInverse(u, 32), U32(FBlaMka(x, y) - y), i, TWO_32);
  }

  lemma UnFBlaMkaOfLow(z: Word64, y: Word64, p: int)
    requires p == LowOfPreimage(z, y) * (y % TWO_32)
    ensures UnFBlaMka(z, y) == U64(z - y - 2 * p)
  {
  }

  lemma UnFBlaMkaLeft(x: Word64, y: Word64)
    ensures UnFBlaMka(FBlaMka(x, y), y) == x
  {
    var p := (x % TWO_32) * (y % TWO_32);
    LowOfImage(x, y, p);
    FBlaMkaOfLow(x, y, p);
    UnFBlaMkaOfLow(FBlaMka(x, y), y, p);
    hide FBlaMka, UnFBlaMka;
    WrapCancels(x, y + 2 * p);
  }

  lemma LowSolves(w: Word32, yl: Word32, lo: Word32, p: int)
    requires lo == U32(w * OddInverse(1 + 2 * yl, 32)) && p == lo * yl
    ensures (lo + 2 * p - w) % TWO_32 == 0
  {
    hide OddInverse;
    OddInverseOf32(1 + 2 * yl);
    UnitSolves(w, OddInverse(1 + 2 * yl, 32), yl, TWO_32, lo, p);
  }

  lemma UnitSolves(w: nat, inv: nat, yl: nat, m: nat, lo: nat, p: int)
    requires m > 0 && ((1 + 2 * yl) * inv) % m == 1
    requires lo == (w * inv) % m && p == lo * yl
    ensures (lo + 2 * p - w) % m == 0
  {
    Distribute(lo, yl);
    UnitProduct(w, inv, 1 + 2 * yl, m, lo);
  }

  lemma OddInverseOf32(u: nat)
    requires u % 2 == 1
    ensures (u * OddInverse(u, 32)) % TWO_32 == 1
  {
    OddInverseCorrect(u, 32);
    Pow2OfWords();
  }

  lemma Distribute(lo: int, yl: int)
    ensures lo * (1 + 2 * yl) == lo + 2 * (lo * yl)
  {
  }

  lemma FBlaMkaOfLow(x: Word64, y: Word64, p: int)
    requires p == (x % TWO_32) * (y % TWO_32)
    ensures FBlaMka(x, y) == U64(x + y + 2 * p)
  {
  }

  lemma UnFBlaMkaRight(z: Word64, y: Word64)
    ensures FBlaMka(UnFBlaMka(z, y), y) == z
  {
    var lo := LowOfPreimage(z, y);
    var p := lo * (y % TWO_32);
    var x := UnFBlaMka(z, y);
    assert x % TWO_32 == lo by {
      LowSolves(U32(z - y), y % TWO_32, lo, p);
      LowHalfOfDifference(z, y, lo, p);
    }
    FBlaMkaOfLow(x, y, p);
    UnwrapDifference(z, y, p);
  }

  lemma UnwrapDifference(z: Word64, y: Word64, p: int)
    ensures U64(U64(z - y - 2 * p) + y + 2 * p) == z
  {
    WrapCancels(z, 0 - y - 2 * p);
  }

  lemma UnitProduct(w: nat, inv: nat, u: nat, m: nat, lo: nat)
    requires m > 0 && (u * inv) % m == 1
    requires lo == (w * inv) % m
    ensures (lo * u - w) % m == 0
  {
    var j, c := (u * inv) / m, (w * inv) / m;
    assert u * inv == j * m + 1;
    assert lo == w * inv - c * m;
    assert lo * u == (w * inv) * u - (c * m) * u;
    assert (w * inv) * u == w * (u * inv) == w * (j * m) + w;
    assert w * (j * m) == (w * j) * m;
    assert (c * m) * u == (c * u) * m;
    RemainderOf(lo * u - w, w * j - c * u, 0, m);
  }

  // ---- the word operations of the C macros ----

  /** `rotr64`; the macros rotate by 16, 24, 32 and 63 only. */
  function Rotate(w: Word64, c: nat): (r: Word64) {
    if 0 < c < 64 then Rotr64(w, c) else w
  }

  /** Addition, exclusive or and rotation of the C file, with the macro G still to be built from them. */
  const C_WORDS: WordOps :=
    WordOps((x, y) => FBlaMka(x, y), (x, y) => Xor64(x, y), (w, c) => Rotate(w, c), q => q)

  function UnHalfG(q: Quad, r: nat, s: nat): Quad
    requires r < 64 && s < 64
  {
    var b := Xor64(Rotate(q.b, 64 - s), q.c);
    var c := UnFBlaMka(q.c, q.d);
    var d := Xor64(Rotate(q.d, 64 - r), q.a);
    var a := UnFBlaMka(q.a, b);
    Quad(a, b, c, d)
  }

  lemma XorRotate(w: Word64, m: Word64, r: nat)
    requires 0 < r < 64
    ensures Xor64(Rotate(Rotate(Xor64(w, m), r), 64 - r), m) == w
  {
    RotrInverse(Xor64(w, m), r);
    Xor64Involutive(w, m);
  }

  lemma RotateXor(w: Word64, m: Word64, r: nat)
    requires 0 < r < 64
    ensures Rotate(Xor64(Xor64(Rotate(w, 64 - r), m), m), r) == w
  {
    Xor64Involutive(Rotate(w, 64 - r), m);
    RotrInverse(w, 64 - r);
  }

  lemma HalfGInverse(q: Quad, r: nat, s: nat)
    requires 0 < r < 64 && 0 < s < 64
    ensures UnHalfG(HalfG(C_WORDS, q, r, s), r, s) == q
    ensures HalfG(C_WORDS, UnHalfG(q, r, s), r, s) == q
  {
    var f := HalfG(C_WORDS, q, r, s);
    XorRotate(q.d, f.a, r);
    XorRotate(q.b, f.c, s);
    UnFBlaMkaLeft(q.a, q.b);
    UnFBlaMkaLeft(q.c, f.d);
    var u := UnHalfG(q, r, s);
    RotateXor(q.b, q.c, s);
    RotateXor(q.d, q.a, r);
    UnFBlaMkaRight(q.c, q.d);
    UnFBlaMkaRight(q.a, u.b);
  }

  function G(q: Quad): Quad {
    HalfG(C_WORDS, HalfG(C_WORDS, q, 32, 24), 16, 63)
  }

  function UnG(q: Quad): Quad {
    UnHalfG(UnHalfG(q, 16, 63), 32, 24)
  }

  lemma GInverse(q: Quad)
    ensures UnG(G(q)) == q && G(UnG(q)) == q
  {
    HalfGInverse(q, 32, 24);
    HalfGInverse(HalfG(C_WORDS, q, 32, 24), 16, 63);
    HalfGInverse(q, 16, 63);
    HalfGInverse(UnHalfG(q, 16, 63), 32, 24);
  }

  const BLAMKA: WordOps := C_WORDS.(g := q => G(q))

  const UNDO_G: Quad -> Quad := q => UnG(q)

  /** The eight lines of GB in section 3.6 of RFC 9106. */
  lemma GIsGB(a: Word64, b: Word64, c: Word64, d: Word64)
    ensures
      var a1 := (a + b + 2 * ((a % 0x1_0000_0000) * (b % 0x1_0000_0000))) % 0x1_0000_0000_0000_0000;
      var d1 := Rotr64(Xor64(d, a1), 32);
      var c1 := (c + d1 + 2 * ((c % 0x1_0000_0000) * (d1 % 0x1_0000_0000))) % 0x1_0000_0000_0000_0000;
      var b1 := Rotr64(Xor64(b, c1), 24);
      var a2 := (a1 + b1 + 2 * ((a1 % 0x1_0000_0000) * (b1 % 0x1_0000_0000))) % 0x1_0000_0000_0000_0000;
      var d2 := Rotr64(Xor64(d1, a2), 16);
      var c2 := (c1 + d2 + 2 * ((c1 % 0x1_0000_0000) * (d2 % 0x1_0000_0000))) % 0x1_0000_0000_0000_0000;
      var b2 := Rotr64(Xor64(b1, c2), 63);
      BLAMKA.g(Quad(a, b, c, d)) == Quad(a2, b2, c2, d2)
  {
    hide Rotr64, Xor64;
  }

  /** The C file's operations are among those the proofs about the macros and about fill_block are for. */
  lemma BlaMkaCoherent()
    ensures Coherent(BLAMKA)
  {
    forall a: Word64, b: Word64, c: Word64
      ensures XorsMayBeReordered(BLAMKA, a, b, c)
    {
      XorBitsSwap(a, b, c, 64);
      XorBitsSymmetric(a, b, 64);
    }
  }

  /** G is undone by undoing its eight assignments in reverse. */
  lemma BlaMkaUndone()
    ensures Undoes(UNDO_G, BLAMKA)
  {
    hide G, UnG;
    forall q: Quad
      ensures UndoneAt(UNDO_G, BLAMKA, q)
    {
      GInverse(q);
    }
  }

  /** BLAKE2_ROUND_NOMSG is a bijection on word blocks, whichever sixteen distinct words it is applied to. */
  lemma RoundIsBijection(s: seq<Word64>, v: seq<nat>)
    requires ValidOperands(v, |s|)
    ensures forall t: seq<Word64> | |t| == |s| && BlaMkaRound(t, v) == BlaMkaRound(s, v) :: t == s
    ensures exists t: seq<Word64> :: |t| == |s| && BlaMkaRound(t, v) == s
  {
    BlaMkaUndone();
    var steps := RoundSteps(v, |s|);
    MixInverse(BLAMKA, UNDO_G, s, steps);
    forall t: seq<Word64> | |t| == |s| && BlaMkaRound(t, v) == BlaMkaRound(s, v)
      ensures t == s
    {
      MixInverse(BLAMKA, UNDO_G, t, steps);
    }
    assert BlaMkaRound(Unmix(UNDO_G, s, steps), v) == s;
  }

  function BlaMkaRound(s: seq<Word64>, v: seq<nat>): (t: seq<Word64>)
    requires ValidOperands(v, |s|)
    ensures |t| == |s|
  {
    Mix(BLAMKA, s, RoundSteps(v, |s|))
  }
}
