/**
 * The permutation P of section 3.6 of RFC 9106, on a 4 x 4 matrix of words, and that the eight lines of
 * BLAKE2_ROUND_NOMSG apply it to whichever sixteen words they are given.
 */
module Permutation {
  import opened Words
  import opened Mixing

  function Part(q: Quad, r: nat): Word64
    requires r < 4
  {
    if r == 0 then q.a else if r == 1 then q.b else if r == 2 then q.c else q.d
  }

  /** G on each column of a 4 x 4 matrix of words, given row by row. */
  function ColumnsMixed(o: WordOps, v: seq<Word64>): (w: seq<Word64>)
    requires |v| == 16
    ensures |w| == 16
  {
    seq(16, n requires 0 <= n < 16 => Part(o.g(Quad(v[n % 4], v[4 + n % 4], v[8 + n % 4], v[12 + n % 4])), n / 4))
  }

  /** Row r rotated by r places, so that the diagonals become the columns. */
  function Sheared(v: seq<Word64>): (w: seq<Word64>)
    requires |v| == 16
    ensures |w| == 16
  {
    seq(16, n requires 0 <= n < 16 => v[n / 4 * 4 + (n % 4 + n / 4) % 4])
  }

  function Unsheared(v: seq<Word64>): (w: seq<Word64>)
    requires |v| == 16
    ensures |w| == 16
  {
    seq(16, n requires 0 <= n < 16 => v[n / 4 * 4 + (n % 4 + 4 - n / 4) % 4])
  }

  /** The permutation P of section 3.6 of RFC 9106: G on the four columns, then on the four diagonals. */
  function P(o: WordOps, v: seq<Word64>): (w: seq<Word64>)
    requires |v| == 16
    ensures |w| == 16
  {
    Unsheared(ColumnsMixed(o, Sheared(ColumnsMixed(o, v))))
  }

  predicate Apart(k: Cells, l: Cells) {
    && l.a !in [k.a, k.b, k.c, k.d] && l.b !in [k.a, k.b, k.c, k.d]
    && l.c !in [k.a, k.b, k.c, k.d] && l.d !in [k.a, k.b, k.c, k.d]
  }

  /** G at `k` leaves G of these words there, and words elsewhere as they were. */
  lemma GAtCells(o: WordOps, v: seq<Word64>, k: Cells, l: Cells)
    requires ValidCells(k, |v|) && ValidCells(l, |v|) && Apart(k, l)
    ensures Load(GAt(o, v, k), k) == o.g(Load(v, k)) && Load(GAt(o, v, k), l) == Load(v, l)
  {
  }

  predicate AllApart(k0: Cells, k1: Cells, k2: Cells, k3: Cells) {
    && Apart(k0, k1) && Apart(k0, k2) && Apart(k0, k3) && Apart(k1, k0) && Apart(k1, k2) && Apart(k1, k3)
    && Apart(k2, k0) && Apart(k2, k1) && Apart(k2, k3) && Apart(k3, k0) && Apart(k3, k1) && Apart(k3, k2)
  }

  lemma LinesApart()
    ensures |ROUND| == 8 && AllApart(ROUND[0], ROUND[1], ROUND[2], ROUND[3])
    ensures AllApart(ROUND[4], ROUND[5], ROUND[6], ROUND[7])
  {
  }

  /** Four G steps on four quadruples of words without a word in common. */
  lemma FourSteps(o: WordOps, v: seq<Word64>, k0: Cells, k1: Cells, k2: Cells, k3: Cells) returns (w: seq<Word64>)
    requires ValidCells(k0, |v|) && ValidCells(k1, |v|) && ValidCells(k2, |v|) && ValidCells(k3, |v|)
    requires AllApart(k0, k1, k2, k3)
    ensures |w| == |v| && w == GAt(o, GAt(o, GAt(o, GAt(o, v, k0), k1), k2), k3)
    ensures Load(w, k0) == o.g(Load(v, k0)) && Load(w, k1) == o.g(Load(v, k1))
    ensures Load(w, k2) == o.g(Load(v, k2)) && Load(w, k3) == o.g(Load(v, k3))
  {
    hide GAt, Apart, ValidCells, Load;
    var v1 := GAt(o, v, k0);
    var v2 := GAt(o, v1, k1);
    var v3 := GAt(o, v2, k2);
    w := GAt(o, v3, k3);
    GAtCells(o, v, k0, k1);
    GAtCells(o, v, k0, k2);
    GAtCells(o, v, k0, k3);
    GAtCells(o, v1, k1, k0);
    GAtCells(o, v1, k1, k2);
    GAtCells(o, v1, k1, k3);
    GAtCells(o, v2, k2, k0);
    GAtCells(o, v2, k2, k1);
    GAtCells(o, v2, k2, k3);
    GAtCells(o, v3, k3, k0);
    GAtCells(o, v3, k3, k1);
    GAtCells(o, v3, k3, k2);
  }

  lemma FirstFourLines(o: WordOps, v: seq<Word64>)
    requires |v| == 16
    ensures ValidSteps(ROUND, 16) && Mix(o, v, ROUND[..4]) == ColumnsMixed(o, v)
  {
    hide Mix, GAt;
    RoundTableValid();
    NoSteps(o, v);
    MixNext(o, v, ROUND, 0);
    MixNext(o, v, ROUND, 1);
    MixNext(o, v, ROUND, 2);
    MixNext(o, v, ROUND, 3);
    LinesApart();
    var w := FourSteps(o, v, ROUND[0], ROUND[1], ROUND[2], ROUND[3]);
    ColumnsHeld(o, v, w);
  }

  lemma ColumnsHeld(o: WordOps, v: seq<Word64>, w: seq<Word64>)
    requires |v| == |w| == 16 && ValidSteps(ROUND, 16)
    requires Load(w, ROUND[0]) == o.g(Load(v, ROUND[0])) && Load(w, ROUND[1]) == o.g(Load(v, ROUND[1]))
    requires Load(w, ROUND[2]) == o.g(Load(v, ROUND[2])) && Load(w, ROUND[3]) == o.g(Load(v, ROUND[3]))
    ensures w == ColumnsMixed(o, v)
  {
  }

  lemma NoSteps(o: WordOps, v: seq<Word64>)
    requires |v| == 16
    ensures ValidSteps(ROUND, 16) && Mix(o, v, ROUND[..0]) == v
  {
    RoundTableValid();
  }

  lemma LastFourLines(o: WordOps, v: seq<Word64>)
    requires |v| == 16
    ensures ValidSteps(ROUND, 16)
    ensures Mix(o, v, ROUND) == Unsheared(ColumnsMixed(o, Sheared(Mix(o, v, ROUND[..4]))))
  {
    hide Mix, GAt, ColumnsMixed, Sheared, Unsheared;
    RoundTableValid();
    MixNext(o, v, ROUND, 4);
    MixNext(o, v, ROUND, 5);
    MixNext(o, v, ROUND, 6);
    MixNext(o, v, ROUND, 7);
    assert ROUND[..8] == ROUND;
    LinesApart();
    var u := Mix(o, v, ROUND[..4]);
    var w := FourSteps(o, u, ROUND[4], ROUND[5], ROUND[6], ROUND[7]);
    DiagonalsHeld(o, u, w);
  }

  /** Column c of the sheared matrix is the c-th diagonal. */
  lemma ShearedColumns(v: seq<Word64>, c: nat)
    requires |v| == 16 && c < 4 && ValidSteps(ROUND, 16) && |ROUND| == 8
    ensures var s := Sheared(v); Quad(s[c], s[4 + c], s[8 + c], s[12 + c]) == Load(v, ROUND[4 + c])
    ensures Load(Unsheared(v), ROUND[4 + c]) == Quad(v[c], v[4 + c], v[8 + c], v[12 + c])
  {
  }

  lemma DiagonalsCover(v: seq<Word64>, w: seq<Word64>)
    requires |v| == |w| == 16 && ValidSteps(ROUND, 16)
    requires Load(v, ROUND[4]) == Load(w, ROUND[4]) && Load(v, ROUND[5]) == Load(w, ROUND[5])
    requires Load(v, ROUND[6]) == Load(w, ROUND[6]) && Load(v, ROUND[7]) == Load(w, ROUND[7])
    ensures v == w
  {
  }

  lemma ColumnsAre(o: WordOps, v: seq<Word64>, c: nat)
    requires |v| == 16 && c < 4
    ensures var w := ColumnsMixed(o, v);
      Quad(w[c], w[4 + c], w[8 + c], w[12 + c]) == o.g(Quad(v[c], v[4 + c], v[8 + c], v[12 + c]))
  {
  }

  lemma DiagonalHeld(o: WordOps, v: seq<Word64>, c: nat)
    requires |v| == 16 && c < 4 && ValidSteps(ROUND, 16) && |ROUND| == 8
    ensures Load(Unsheared(ColumnsMixed(o, Sheared(v))), ROUND[4 + c]) == o.g(Load(v, ROUND[4 + c]))
  {
    hide Sheared, Unsheared, ColumnsMixed, Load;
    ShearedColumns(v, c);
    ColumnsAre(o, Sheared(v), c);
    ShearedColumns(ColumnsMixed(o, Sheared(v)), c);
  }

  lemma DiagonalsHeld(o: WordOps, v: seq<Word64>, w: seq<Word64>)
    requires |v| == |w| == 16 && ValidSteps(ROUND, 16) && |ROUND| == 8
    requires Load(w, ROUND[4]) == o.g(Load(v, ROUND[4])) && Load(w, ROUND[5]) == o.g(Load(v, ROUND[5]))
    requires Load(w, ROUND[6]) == o.g(Load(v, ROUND[6])) && Load(w, ROUND[7]) == o.g(Load(v, ROUND[7]))
    ensures w == Unsheared(ColumnsMixed(o, Sheared(v)))
  {
    hide Sheared, Unsheared, ColumnsMixed, Load;
    DiagonalHeld(o, v, 0);
    DiagonalHeld(o, v, 1);
    DiagonalHeld(o, v, 2);
    DiagonalHeld(o, v, 3);
    DiagonalsCover(w, Unsheared(ColumnsMixed(o, Sheared(v))));
  }

  /** The eight lines of BLAKE2_ROUND_NOMSG are P. */
  lemma RoundIsP(o: WordOps, v: seq<Word64>)
    requires |v| == 16
    ensures ValidSteps(ROUND, 16) && Mix(o, v, ROUND) == P(o, v)
  {
    hide Mix, ColumnsMixed, Sheared, Unsheared;
    FirstFourLines(o, v);
    LastFourLines(o, v);
  }

  /** The words `v` names, in its order. */
  function Gather(s: seq<Word64>, v: seq<nat>): (w: seq<Word64>)
    requires ValidOperands(v, |s|)
    ensures |w| == 16
  {
    seq(16, j requires 0 <= j < 16 => s[v[j]])
  }

  /** G on words named through `v` is G on the gathered words; no other word changes. */
  lemma GAtGathered(o: WordOps, s: seq<Word64>, v: seq<nat>, k: Cells)
    requires ValidOperands(v, |s|) && ValidCells(k, 16)
    ensures Gather(GAt(o, s, Pick(v, k, |s|)), v) == GAt(o, Gather(s, v), k)
    ensures forall n | 0 <= n < |s| && n !in v :: GAt(o, s, Pick(v, k, |s|))[n] == s[n]
  {
  }

  /** The first n steps of a round on the words `v` names are those of P on the gathered words. */
  lemma {:induction false} RoundGathered(o: WordOps, s: seq<Word64>, v: seq<nat>, n: nat)
    requires ValidOperands(v, |s|) && n <= 8
    ensures ValidSteps(ROUND[..n], 16)
    ensures Gather(Mix(o, s, RoundSteps(v, |s|)[..n]), v) == Mix(o, Gather(s, v), ROUND[..n])
    ensures forall m | 0 <= m < |s| && m !in v :: Mix(o, s, RoundSteps(v, |s|)[..n])[m] == s[m]
    decreases |s|, n
  {
    RoundTableValid();
    if n > 0 {
      RoundGathered(o, s, v, n - 1);
      MixNext(o, s, RoundSteps(v, |s|), n - 1);
      MixNext(o, Gather(s, v), ROUND, n - 1);
      GAtGathered(o, Mix(o, s, RoundSteps(v, |s|)[..n - 1]), v, ROUND[n - 1]);
    }
  }

  /** BLAKE2_ROUND_NOMSG replaces the sixteen words it is given by P of them and leaves every other word alone. */
  lemma RoundOnOperands(o: WordOps, s: seq<Word64>, v: seq<nat>)
    requires ValidOperands(v, |s|)
    ensures Gather(Mix(o, s, RoundSteps(v, |s|)), v) == P(o, Gather(s, v))
    ensures forall m | 0 <= m < |s| && m !in v :: Mix(o, s, RoundSteps(v, |s|))[m] == s[m]
  {
    hide Mix, Gather, P;
    RoundTableValid();
    RoundGathered(o, s, v, 8);
    assert RoundSteps(v, |s|)[..8] == RoundSteps(v, |s|) && ROUND[..8] == ROUND;
    RoundIsP(o, Gather(s, v));
  }
}
