/** fill_block and next_addresses of ref.c on 1024-byte blocks of 128 words. */
module FillBlock {
  import opened Words
  import opened Mixing
  import opened BlaMka
  import opened Permutation

  const WORDS: nat := 128
  const ROUNDS: nat := 8

  const ZERO_BLOCK: seq<Word64> := Zeros(WORDS)

  type Block = b: seq<Word64> | |b| == WORDS witness ZERO_BLOCK

  function Zeros(n: nat): (z: seq<Word64>)
    ensures |z| == n
  {
    seq(n, i => 0)
  }

  function XorWord(o: WordOps, a: Word64, b: Word64): (w: Word64) {
    o.xor(a, b)
  }

  function XorBlocks(o: WordOps, a: Block, b: Block): (r: Block) {
    seq(WORDS, i requires 0 <= i < WORDS => XorWord(o, a[i], b[i]))
  }

  // ---- the permutation of the whole block: two loops of eight rounds ----

  /** The words the i-th round of the column loop, or of the row loop, works on. */
  function Operands(rows: bool, i: nat): seq<nat> {
    if rows then seq(16, j requires 0 <= j < 16 => 2 * i + 16 * (j / 2) + j % 2)
    else seq(16, j requires 0 <= j < 16 => 16 * i + j)
  }

  lemma OperandsValid(rows: bool, i: nat)
    requires i < ROUNDS
    ensures ValidOperands(Operands(rows, i), WORDS)
  {
  }

  /** The G steps of one loop: those of its eight rounds in turn. */
  function Steps(rows: bool): (steps: seq<Cells>)
    ensures |steps| == 8 * ROUNDS && ValidSteps(steps, WORDS)
  {
    seq(8 * ROUNDS, k requires 0 <= k < 8 * ROUNDS => StepAt(rows, k / 8, k % 8))
  }

  function StepAt(rows: bool, i: nat, j: nat): (c: Cells)
    requires i < ROUNDS && j < 8
    ensures ValidCells(c, WORDS)
  {
    OperandsValid(rows, i);
    RoundSteps(Operands(rows, i), WORDS)[j]
  }

  function Permute(o: WordOps, b: Block): (r: Block) {
    Mix(o, Mix(o, b, Steps(false)), Steps(true))
  }

  function Unpermute(undo: Quad -> Quad, b: Block): (r: Block) {
    Unmix(undo, Unmix(undo, b, Steps(true)), Steps(false))
  }

  /** The permutation applied to a block by fill_block loses nothing: it has a two-sided inverse. */
  lemma PermuteIsBijection(o: WordOps, undo: Quad -> Quad, b: Block)
    requires Undoes(undo, o)
    ensures Unpermute(undo, Permute(o, b)) == b
    ensures Permute(o, Unpermute(undo, b)) == b
  {
    hide Mix, Unmix;
    var columns, rows := Steps(false), Steps(true);
    MixInverse(o, undo, b, columns);
    MixInverse(o, undo, Mix(o, b, columns), rows);
    MixInverse(o, undo, b, rows);
    MixInverse(o, undo, Unmix(undo, b, rows), columns);
  }

  /** What fill_block leaves in the next block. */
  function Fill(o: WordOps, prev: Block, ref: Block, next: Block, withXor: bool): (r: Block) {
    var blockR := XorBlocks(o, ref, prev);
    var tmp := if withXor then XorBlocks(o, blockR, next) else blockR;
    XorBlocks(o, tmp, Permute(o, blockR))
  }

  // ---- the same, as section 3.5 of RFC 9106 defines it ----

  /** Row i of the 8 x 8 matrix of two-word registers; the comments of ref.c call it a column. */
  function Row(b: Block, i: nat): seq<Word64>
    requires i < ROUNDS
  {
    b[16 * i..16 * i + 16]
  }

  /** Column j of that matrix, from the top. */
  function Column(b: Block, j: nat): seq<Word64>
    requires j < ROUNDS
  {
    seq(16, k requires 0 <= k < 16 => b[16 * (k / 2) + 2 * j + k % 2])
  }

  /** P applied to each row. */
  function RowsPermuted(o: WordOps, b: Block): (r: Block) {
    seq(WORDS, n requires 0 <= n < WORDS => P(o, Row(b, n / 16))[n % 16])
  }

  /** The place of word n in its column. */
  function InColumn(n: nat): (j: nat)
    requires n < WORDS
    ensures j < 16
  {
    2 * (n / 16) + n % 2
  }

  /** P applied to each column. */
  function ColumnsPermuted(o: WordOps, b: Block): (r: Block) {
    seq(WORDS, n requires 0 <= n < WORDS => P(o, Column(b, n % 16 / 2))[InColumn(n)])
  }

  /** The compression function G of section 3.5 of RFC 9106. */
  function Compress(o: WordOps, x: Block, y: Block): (r: Block) {
    var r := XorBlocks(o, x, y);
    var q := RowsPermuted(o, r);
    var z := ColumnsPermuted(o, q);
    XorBlocks(o, z, r)
  }

  /** The round of a loop that works on word n, and the place of n among the sixteen words of that round. */
  function RoundOf(rows: bool, n: nat): (i: nat)
    requires n < WORDS
    ensures i < ROUNDS
  {
    if rows then n % 16 / 2 else n / 16
  }

  function PlaceOf(rows: bool, n: nat): (j: nat)
    requires n < WORDS
    ensures j < 16
  {
    if rows then 2 * (n / 16) + n % 2 else n % 16
  }

  lemma OperandsPartition(rows: bool, n: nat)
    requires n < WORDS
    ensures Operands(rows, RoundOf(rows, n))[PlaceOf(rows, n)] == n
    ensures forall i | 0 <= i < ROUNDS && n in Operands(rows, i) :: i == RoundOf(rows, n)
  {
    if rows {
      assert n == 16 * (n / 16) + 2 * (n % 16 / 2) + n % 2;
      forall i, j | 0 <= i < ROUNDS && 0 <= j < 16 && Operands(true, i)[j] == n
        ensures i == n % 16 / 2
      {
        RegisterOf(i, j / 2, j % 2);
      }
    }
  }

  /** Where register i of the matrix row m has its words. */
  lemma RegisterOf(i: nat, m: nat, h: nat)
    requires i < 8 && h < 2
    ensures (2 * i + 16 * m + h) % 16 / 2 == i
  {
  }

  /** Word n of the block in which the rounds below i have been made. */
  function AfterRounds(o: WordOps, b: Block, rows: bool, i: nat, n: nat): Word64
    requires i <= ROUNDS && n < WORDS
  {
    OperandsValid(rows, RoundOf(rows, n));
    if RoundOf(rows, n) < i then P(o, Gather(b, Operands(rows, RoundOf(rows, n))))[PlaceOf(rows, n)] else b[n]
  }

  /** `t` is the block `b` after the rounds below i of a loop. */
  ghost predicate RoundsDone(o: WordOps, b: Block, rows: bool, i: nat, t: Block)
    requires i <= ROUNDS
  {
    forall n | 0 <= n < WORDS :: t[n] == AfterRounds(o, b, rows, i, n)
  }

  lemma RoundStepsOf(rows: bool, i: nat)
    requires i < ROUNDS
    ensures ValidOperands(Operands(rows, i), WORDS)
    ensures Steps(rows)[..8 * i + 8] == Steps(rows)[..8 * i] + RoundSteps(Operands(rows, i), WORDS)
  {
    hide Operands, RoundSteps, ValidSteps, ValidOperands;
    OperandsValid(rows, i);
    var steps, next := Steps(rows), RoundSteps(Operands(rows, i), WORDS);
    forall j | 0 <= j < 8
      ensures steps[8 * i + j] == next[j]
    {
      assert (8 * i + j) / 8 == i && (8 * i + j) % 8 == j;
    }
    assert steps[..8 * i + 8] == steps[..8 * i] + steps[8 * i..8 * i + 8];
    assert steps[8 * i..8 * i + 8] == next;
  }

  /** One round more, on a block in which the rounds below i have been made. */
  lemma NextRound(o: WordOps, b: Block, rows: bool, i: nat, t: Block)
    requires i < ROUNDS && ValidOperands(Operands(rows, i), WORDS)
    requires RoundsDone(o, b, rows, i, t)
    ensures RoundsDone(o, b, rows, i + 1, Mix(o, t, RoundSteps(Operands(rows, i), WORDS)))
  {
    hide Mix, Operands;
    var v := Operands(rows, i);
    forall j | 0 <= j < 16
      ensures t[v[j]] == b[v[j]]
    {
      OperandsPartition(rows, v[j]);
      assert v[j] in v;
    }
    assert Gather(t, v) == Gather(b, v);
    var r := Mix(o, t, RoundSteps(v, WORDS));
    RoundOnOperands(o, t, v);
    forall n | 0 <= n < WORDS
      ensures r[n] == AfterRounds(o, b, rows, i + 1, n)
    {
      OperandsPartition(rows, n);
      if RoundOf(rows, n) == i {
        assert r[n] == Gather(r, v)[PlaceOf(rows, n)];
      } else {
        assert n !in v;
      }
    }
  }

  lemma {:induction false} RoundsMade(o: WordOps, b: Block, rows: bool, i: nat)
    requires i <= ROUNDS
    ensures RoundsDone(o, b, rows, i, Mix(o, b, Steps(rows)[..8 * i]))
    decreases |b|, i
  {
    hide Steps, RoundSteps, Operands, ValidOperands, ValidSteps, Gather, P;
    if i == 0 {
      assert Steps(rows)[..0] == [];
    } else {
      RoundsMade(o, b, rows, i - 1);
      NextRoundMade(o, b, rows, i - 1);
    }
  }

  lemma NextRoundMade(o: WordOps, b: Block, rows: bool, i: nat)
    requires i < ROUNDS
    requires RoundsDone(o, b, rows, i, Mix(o, b, Steps(rows)[..8 * i]))
    ensures RoundsDone(o, b, rows, i + 1, Mix(o, b, Steps(rows)[..8 * i + 8]))
  {
    hide Mix, Steps, RoundSteps, Operands, ValidOperands, RoundsDone;
    RoundStepsOf(rows, i);
    var before, next := Steps(rows)[..8 * i], RoundSteps(Operands(rows, i), WORDS);
    MixAppend(o, b, before, next);
    NextRound(o, b, rows, i, Mix(o, b, before));
  }

  /** The words a round works on, gathered, are a row or a column. */
  lemma OperandsGathered(b: Block, i: nat)
    requires i < ROUNDS
    ensures ValidOperands(Operands(false, i), WORDS) && Gather(b, Operands(false, i)) == Row(b, i)
    ensures ValidOperands(Operands(true, i), WORDS) && Gather(b, Operands(true, i)) == Column(b, i)
  {
    OperandsValid(false, i);
    OperandsValid(true, i);
  }

  lemma RowsDone(o: WordOps, b: Block, t: Block)
    requires RoundsDone(o, b, false, ROUNDS, t)
    ensures t == RowsPermuted(o, b)
  {
    hide P, Gather, Operands, ValidOperands, Row;
    forall n | 0 <= n < WORDS
      ensures t[n] == RowsPermuted(o, b)[n]
    {
      OperandsGathered(b, RoundOf(false, n));
      assert t[n] == AfterRounds(o, b, false, ROUNDS, n);
    }
  }

  lemma ColumnsDone(o: WordOps, b: Block, t: Block)
    requires RoundsDone(o, b, true, ROUNDS, t)
    ensures t == ColumnsPermuted(o, b)
  {
    hide P, Gather, Operands, ValidOperands, Column;
    forall n | 0 <= n < WORDS
      ensures t[n] == ColumnsPermuted(o, b)[n]
    {
      OperandsGathered(b, RoundOf(true, n));
      assert t[n] == AfterRounds(o, b, true, ROUNDS, n);
    }
  }

  /** The two loops of fill_block apply P to the rows and then to the columns of the matrix. */
  lemma LoopsPermute(o: WordOps, b: Block)
    ensures Mix(o, b, Steps(false)) == RowsPermuted(o, b)
    ensures Mix(o, b, Steps(true)) == ColumnsPermuted(o, b)
  {
    hide Mix, RoundsDone, RowsPermuted, ColumnsPermuted;
    assert Steps(false)[..8 * ROUNDS] == Steps(false) && Steps(true)[..8 * ROUNDS] == Steps(true);
    RoundsMade(o, b, false, ROUNDS);
    RoundsMade(o, b, true, ROUNDS);
    RowsDone(o, b, Mix(o, b, Steps(false)));
    ColumnsDone(o, b, Mix(o, b, Steps(true)));
  }

  lemma XorReordered(o: WordOps, a: Block, b: Block, c: Block)
    requires Coherent(o)
    ensures XorBlocks(o, a, b) == XorBlocks(o, b, a)
    ensures XorBlocks(o, XorBlocks(o, a, b), c) == XorBlocks(o, XorBlocks(o, a, c), b)
  {
    assert forall i | 0 <= i < WORDS :: XorsMayBeReordered(o, a[i], b[i], c[i]);
  }

  /** fill_block writes G(prev, ref), exclusive-ored onto the old block when asked to. */
  lemma FillIsCompress(o: WordOps, prev: Block, ref: Block, next: Block, withXor: bool)
    requires Coherent(o)
    ensures Fill(o, prev, ref, next, withXor)
         == if withXor then XorBlocks(o, Compress(o, prev, ref), next) else Compress(o, prev, ref)
  {
    hide XorBlocks, RowsPermuted, ColumnsPermuted, Coherent, Mix;
    var r := XorBlocks(o, prev, ref);
    XorReordered(o, prev, ref, next);
    LoopsPermute(o, r);
    LoopsPermute(o, RowsPermuted(o, r));
    XorReordered(o, r, Permute(o, r), next);
    XorReordered(o, r, next, Permute(o, r));
  }

  // ---- the C functions on block buffers ----

  method CopyBlock(dst: array<Word64>, src: array<Word64>)
    requires dst.Length == src.Length == WORDS
    modifies dst
    ensures dst[..] == old(src[..])
  {
    forall i | 0 <= i < WORDS {
      dst[i] := src[i];
    }
  }

  method XorBlock(o: WordOps, dst: array<Word64>, src: array<Word64>)
    requires dst.Length == src.Length == WORDS && dst != src
    modifies dst
    ensures dst[..] == XorBlocks(o, old(dst[..]), src[..])
  {
    for i := 0 to WORDS
      invariant forall j | 0 <= j < i :: dst[j] == o.xor(old(dst[j]), src[j])
      invariant forall j | i <= j < WORDS :: dst[j] == old(dst[j])
    {
      dst[i] := o.xor(dst[i], src[i]);
    }
  }

  /** One of the two loops of fill_block: eight rounds on columns, or eight on rows. */
  method PermuteWords(o: WordOps, v: array<Word64>, rows: bool)
    requires Coherent(o) && v.Length == WORDS
    modifies v
    ensures v[..] == Mix(o, old(v[..]), Steps(rows))
  {
    hide Coherent, StepAt;
    ghost var s := v[..];
    var steps := Steps(rows);
    assert steps[..0] == [];
    for i := 0 to ROUNDS
      invariant v[..] == Mix(o, s, steps[..8 * i])
    {
      var next := steps[8 * i..8 * i + 8];
      RoundInPlace(o, v, next);
      MixAppend(o, s, steps[..8 * i], next);
      assert steps[..8 * i] + next == steps[..8 * (i + 1)];
    }
    assert steps[..8 * ROUNDS] == steps;
  }

  /** The three blocks may be the same buffer: next_addresses passes its output as the reference. */
  method FillBlockInPlace(o: WordOps, prev: array<Word64>, ref: array<Word64>, next: array<Word64>, withXor: bool)
    requires Coherent(o) && prev.Length == ref.Length == next.Length == WORDS
    modifies next
    ensures next[..] == Fill(o, old(prev[..]), old(ref[..]), old(next[..]), withXor)
  {
    hide Coherent, Mix, XorBlocks, Steps;
    var blockR, tmp := new Word64[WORDS], new Word64[WORDS];
    CopyBlock(blockR, ref);
    XorBlock(o, blockR, prev);
    CopyBlock(tmp, blockR);
    if withXor {
      XorBlock(o, tmp, next);
    }
    PermuteWords(o, blockR, false);
    PermuteWords(o, blockR, true);
    CopyBlock(next, tmp);
    XorBlock(o, next, blockR);
  }

  /** The address block made from an input block whose counter word has just been set. */
  function Addresses(o: WordOps, input: Block): (r: Block) {
    Compress(o, ZERO_BLOCK, Compress(o, ZERO_BLOCK, input))
  }

  /** The input block with its counter word, the seventh, incremented. */
  function Bump(input: Block): (r: Block) {
    var counter: int := input[6];
    input[6 := U64(counter + 1)]
  }

  /** fill_block without exclusive or. */
  method Overwrite(o: WordOps, prev: array<Word64>, ref: array<Word64>, next: array<Word64>)
    requires Coherent(o) && prev.Length == ref.Length == next.Length == WORDS
    modifies next
    ensures next[..] == Compress(o, old(prev[..]), old(ref[..]))
  {
    FillIsCompress(o, prev[..], ref[..], next[..], false);
    FillBlockInPlace(o, prev, ref, next, false);
  }

  method BumpCounter(input: array<Word64>)
    requires input.Length == WORDS
    modifies input
    ensures input[..] == Bump(old(input[..]))
  {
    var counter: int := input[6];
    input[6] := U64(counter + 1);
  }

  method NextAddresses(o: WordOps, address: array<Word64>, input: array<Word64>, zero: array<Word64>)
    requires Coherent(o) && address.Length == input.Length == zero.Length == WORDS
    requires address != input && address != zero && input != zero
    requires zero[..] == ZERO_BLOCK
    modifies address, input
    ensures input[..] == Bump(old(input[..]))
    ensures address[..] == Addresses(o, input[..])
  {
    BumpCounter(input);
    Overwrite(o, zero, input, address);
    Overwrite(o, zero, address, address);
  }

  // ---- with the word operations of the C file ----

  /** The 1024-byte permutation of fill_block is a bijection on blocks. */
  lemma BlaMkaPermutationIsBijection(b: Block)
    ensures forall c: Block | Permute(BLAMKA, c) == Permute(BLAMKA, b) :: c == b
    ensures exists c: Block :: Permute(BLAMKA, c) == b
  {
    BlaMkaUndone();
    PermuteIsBijection(BLAMKA, UNDO_G, b);
    forall c: Block | Permute(BLAMKA, c) == Permute(BLAMKA, b)
      ensures c == b
    {
      PermuteIsBijection(BLAMKA, UNDO_G, c);
    }
    assert Permute(BLAMKA, Unpermute(UNDO_G, b)) == b;
  }

  /** With the C file's words, overwriting and exclusive-oring differ exactly by the old block. */
  lemma BlaMkaFill(prev: Block, ref: Block, next: Block)
    ensures Fill(BLAMKA, prev, ref, next, false) == Compress(BLAMKA, prev, ref)
    ensures Fill(BLAMKA, prev, ref, next, true) == XorBlocks(BLAMKA, Compress(BLAMKA, prev, ref), next)
  {
    BlaMkaCoherent();
    FillIsCompress(BLAMKA, prev, ref, next, false);
    FillIsCompress(BLAMKA, prev, ref, next, true);
  }
}
