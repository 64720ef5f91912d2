/**
 * The macros G and BLAKE2_ROUND_NOMSG of blamka-round-ref.h, over any three word operations.
 * BlaMka.dfy supplies the operations the C file uses and shows that they can be undone.
 */
module Mixing {
  import opened Words

  datatype Quad = Quad(a: Word64, b: Word64, c: Word64, d: Word64)

  /** The word operations of the macros, and the macro G built from them. */
  datatype WordOps = WordOps(
    add: (Word64, Word64) -> Word64,
    xor: (Word64, Word64) -> Word64,
    rotr: (Word64, nat) -> Word64,
    g: Quad -> Quad)

  /** One half of G: the four assignments with rotation distances r and s. */
  function HalfG(o: WordOps, q: Quad, r: nat, s: nat): Quad {
    var a := o.add(q.a, q.b);
    var d := o.rotr(o.xor(q.d, a), r);
    var c := o.add(q.c, d);
    var b := o.rotr(o.xor(q.b, c), s);
    Quad(a, b, c, d)
  }

  predicate GIsMacro(o: WordOps, q: Quad) {
    o.g(q) == HalfG(o, HalfG(o, q, 32, 24), 16, 63)
  }

  predicate XorsMayBeReordered(o: WordOps, a: Word64, b: Word64, c: Word64) {
    o.xor(a, b) == o.xor(b, a) && o.xor(o.xor(a, b), c) == o.xor(o.xor(a, c), b)
  }

  /** `g` is the macro, and exclusive or may be applied in any order. */
  ghost predicate Coherent(o: WordOps) {
    && (forall q: Quad {:trigger GIsMacro(o, q)} :: GIsMacro(o, q))
    && (forall a: Word64, b: Word64, c: Word64 {:trigger XorsMayBeReordered(o, a, b, c)} ::
          XorsMayBeReordered(o, a, b, c))
  }

  /** `undo` is a two-sided inverse of G. */
  ghost predicate Undoes(undo: Quad -> Quad, o: WordOps) {
    forall q: Quad {:trigger UndoneAt(undo, o, q)} :: UndoneAt(undo, o, q)
  }

  predicate UndoneAt(undo: Quad -> Quad, o: WordOps, q: Quad) {
    undo(o.g(q)) == q && o.g(undo(q)) == q
  }

  // ---- G on four cells of a word sequence, and runs of such steps ----

  /** Which four words one invocation of the macro G names. */
  datatype Cells = Cells(a: nat, b: nat, c: nat, d: nat)

  predicate ValidCells(k: Cells, n: nat) {
    && k.a < n && k.b < n && k.c < n && k.d < n
    && k.a != k.b && k.a != k.c && k.a != k.d && k.b != k.c && k.b != k.d && k.c != k.d
  }

  function Load(s: seq<Word64>, k: Cells): Quad
    requires ValidCells(k, |s|)
  {
    Quad(s[k.a], s[k.b], s[k.c], s[k.d])
  }

  function Store(s: seq<Word64>, k: Cells, q: Quad): (t: seq<Word64>)
    requires ValidCells(k, |s|)
    ensures |t| == |s|
  {
    s[k.a := q.a][k.b := q.b][k.c := q.c][k.d := q.d]
  }

  function GAt(o: WordOps, s: seq<Word64>, k: Cells): (t: seq<Word64>)
    requires ValidCells(k, |s|)
    ensures |t| == |s|
  {
    Store(s, k, o.g(Load(s, k)))
  }

  function UnGAt(undo: Quad -> Quad, s: seq<Word64>, k: Cells): (t: seq<Word64>)
    requires ValidCells(k, |s|)
    ensures |t| == |s|
  {
    Store(s, k, undo(Load(s, k)))
  }

  lemma GAtInverse(o: WordOps, undo: Quad -> Quad, s: seq<Word64>, k: Cells)
    requires Undoes(undo, o) && ValidCells(k, |s|)
    ensures UnGAt(undo, GAt(o, s, k), k) == s && GAt(o, UnGAt(undo, s, k), k) == s
  {
    var q := Load(s, k);
    assert UndoneAt(undo, o, q);
    StoreBack(s, k, o.g(q));
    StoreBack(s, k, undo(q));
  }

  lemma StoreBack(s: seq<Word64>, k: Cells, q: Quad)
    requires ValidCells(k, |s|)
    ensures Load(Store(s, k, q), k) == q
    ensures Store(Store(s, k, q), k, Load(s, k)) == s
  {
  }

  predicate ValidSteps(steps: seq<Cells>, n: nat) {
    forall i | 0 <= i < |steps| :: ValidCells(steps[i], n)
  }

  function Mix(o: WordOps, s: seq<Word64>, steps: seq<Cells>): (t: seq<Word64>)
    requires ValidSteps(steps, |s|)
    ensures |t| == |s|
    decreases |s|, |steps|
  {
    if steps == [] then s
    else GAt(o, Mix(o, s, steps[..|steps| - 1]), steps[|steps| - 1])
  }

  function Unmix(undo: Quad -> Quad, s: seq<Word64>, steps: seq<Cells>): (t: seq<Word64>)
    requires ValidSteps(steps, |s|)
    ensures |t| == |s|
    decreases |s|, |steps|
  {
    if steps == [] then s
    else Unmix(undo, UnGAt(undo, s, steps[|steps| - 1]), steps[..|steps| - 1])
  }

  /** Every run of G steps is a bijection on word sequences: `Unmix` is its two-sided inverse. */
  lemma {:induction false} MixInverse(o: WordOps, undo: Quad -> Quad, s: seq<Word64>, steps: seq<Cells>)
    requires Undoes(undo, o) && ValidSteps(steps, |s|)
    ensures Unmix(undo, Mix(o, s, steps), steps) == s
    ensures Mix(o, Unmix(undo, s, steps), steps) == s
    decreases |s|, |steps|
  {
    if steps != [] {
      var k, init := steps[|steps| - 1], steps[..|steps| - 1];
      GAtInverse(o, undo, Mix(o, s, init), k);
      MixInverse(o, undo, s, init);
      GAtInverse(o, undo, s, k);
      MixInverse(o, undo, UnGAt(undo, s, k), init);
    }
  }

  lemma {:induction false} MixAppend(o: WordOps, s: seq<Word64>, a: seq<Cells>, b: seq<Cells>)
    requires ValidSteps(a, |s|) && ValidSteps(b, |s|)
    ensures Mix(o, s, a + b) == Mix(o, Mix(o, s, a), b)
    decreases |b|
  {
    if b == [] {
      assert a + b == a;
    } else {
      MixAppend(o, s, a, b[..|b| - 1]);
      assert (a + b)[..|a + b| - 1] == a + b[..|b| - 1];
    }
  }

  /** The sixteen distinct words handed to BLAKE2_ROUND_NOMSG. */
  predicate ValidOperands(v: seq<nat>, n: nat) {
    && |v| == 16
    && (forall i | 0 <= i < 16 :: v[i] < n)
    && (forall i, j | 0 <= i < j < 16 :: v[i] != v[j])
  }

  /** The operand positions of the eight G steps of a round: four columns, then four diagonals. */
  const ROUND: seq<Cells> := [
    Cells(0, 4, 8, 12), Cells(1, 5, 9, 13), Cells(2, 6, 10, 14), Cells(3, 7, 11, 15),
    Cells(0, 5, 10, 15), Cells(1, 6, 11, 12), Cells(2, 7, 8, 13), Cells(3, 4, 9, 14)]

  function Pick(v: seq<nat>, k: Cells, n: nat): (r: Cells)
    requires ValidOperands(v, n) && ValidCells(k, 16)
    ensures ValidCells(r, n)
  {
    Cells(v[k.a], v[k.b], v[k.c], v[k.d])
  }

  lemma RoundTableValid()
    ensures |ROUND| == 8 && ValidSteps(ROUND, 16)
  {
  }

  /** The G steps BLAKE2_ROUND_NOMSG performs on the words `v` names. */
  function RoundSteps(v: seq<nat>, n: nat): (steps: seq<Cells>)
    requires ValidOperands(v, n)
    ensures |steps| == 8 && ValidSteps(steps, n)
  {
    RoundTableValid();
    seq(8, i requires 0 <= i < 8 => Pick(v, ROUND[i], n))
  }

  // ---- the macros acting in place ----

  method GInPlace(o: WordOps, v: array<Word64>, k: Cells)
    requires Coherent(o) && ValidCells(k, v.Length)
    modifies v
    ensures v[..] == GAt(o, old(v[..]), k)
  {
    assert GIsMacro(o, Load(v[..], k));
    v[k.a] := o.add(v[k.a], v[k.b]);
    v[k.d] := o.rotr(o.xor(v[k.d], v[k.a]), 32);
    v[k.c] := o.add(v[k.c], v[k.d]);
    v[k.b] := o.rotr(o.xor(v[k.b], v[k.c]), 24);
    v[k.a] := o.add(v[k.a], v[k.b]);
    v[k.d] := o.rotr(o.xor(v[k.d], v[k.a]), 16);
    v[k.c] := o.add(v[k.c], v[k.d]);
    v[k.b] := o.rotr(o.xor(v[k.b], v[k.c]), 63);
  }

  /** The eight lines of BLAKE2_ROUND_NOMSG, one after the other. */
  method RoundInPlace(o: WordOps, v: array<Word64>, steps: seq<Cells>)
    requires Coherent(o) && |steps| == 8 && ValidSteps(steps, v.Length)
    modifies v
    ensures v[..] == Mix(o, old(v[..]), steps)
  {
    ghost var s := v[..];
    assert steps[..0] == [];
    EightSteps(o, v, steps, s);
    assert steps[..8] == steps;
  }

  method EightSteps(o: WordOps, v: array<Word64>, steps: seq<Cells>, ghost s: seq<Word64>)
    requires Coherent(o) && |steps| == 8 && ValidSteps(steps, v.Length) && |s| == v.Length
    requires v[..] == Mix(o, s, steps[..0])
    modifies v
    ensures v[..] == Mix(o, s, steps[..8])
  {
    FourSteps(o, v, steps, 0, s);
    FourSteps(o, v, steps, 4, s);
  }

  method FourSteps(o: WordOps, v: array<Word64>, steps: seq<Cells>, i: nat, ghost s: seq<Word64>)
    requires Coherent(o) && i + 4 <= |steps| && ValidSteps(steps, v.Length) && |s| == v.Length
    requires v[..] == Mix(o, s, steps[..i])
    modifies v
    ensures v[..] == Mix(o, s, steps[..i + 4])
  {
    OneStep(o, v, steps, i, s);
    OneStep(o, v, steps, i + 1, s);
    OneStep(o, v, steps, i + 2, s);
    OneStep(o, v, steps, i + 3, s);
  }

  method OneStep(o: WordOps, v: array<Word64>, steps: seq<Cells>, i: nat, ghost s: seq<Word64>)
    requires Coherent(o) && i < |steps| && ValidSteps(steps, v.Length) && |s| == v.Length
    requires v[..] == Mix(o, s, steps[..i])
    modifies v
    ensures v[..] == Mix(o, s, steps[..i + 1])
  {
    GInPlace(o, v, steps[i]);
    MixNext(o, s, steps, i);
  }

  lemma MixNext(o: WordOps, s: seq<Word64>, steps: seq<Cells>, i: nat)
    requires ValidSteps(steps, |s|) && i < |steps|
    ensures Mix(o, s, steps[..i + 1]) == GAt(o, Mix(o, s, steps[..i]), steps[i])
  {
    assert steps[..i + 1][..i] == steps[..i];
  }
}
