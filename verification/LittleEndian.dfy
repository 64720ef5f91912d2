/** The word codecs of blake2-impl.h. */
module LittleEndian {
  import opened Words

  type Bytes = seq<Byte>

  function Zeros(n: nat): (z: Bytes)
    ensures |z| == n
  {
    seq(n, i => 0)
  }

  function LowByte(w: nat): (b: Byte) {
    w % 256
  }

  /** The low `n` bytes of `w`, least significant first. */
  function Encode(w: nat, n: nat): (s: Bytes)
    ensures |s| == n
    decreases w + n, n
  {
    if n == 0 then [] else [LowByte(w)] + Encode(w / 256, n - 1)
  }

  function Decode(s: Bytes): (w: nat) {
    if s == [] then 0 else s[0] + 256 * Decode(s[1..])
  }

  /** 256 to the power n. */
  function Span(n: nat): (p: nat)
    ensures p > 0
  {
    if n == 0 then 1 else 256 * Span(n - 1)
  }

  lemma {:induction false} DecodeBound(s: Bytes)
    ensures Decode(s) < Span(|s|)
  {
    if s != [] {
      DecodeBound(s[1..]);
    }
  }

  lemma {:induction false} DecodeEncode(w: nat, n: nat)
    requires w < Span(n)
    ensures Decode(Encode(w, n)) == w
    decreases n
  {
    if n > 0 {
      DecodeEncode(w / 256, n - 1);
      assert Encode(w, n)[1..] == Encode(w / 256, n - 1);
    }
  }

  lemma {:induction false} EncodeDecode(s: Bytes)
    ensures Encode(Decode(s), |s|) == s
  {
    if s != [] {
      EncodeDecode(s[1..]);
      SplitByte(s[0], Decode(s[1..]));
    }
  }

  lemma SplitByte(b: Byte, rest: nat)
    ensures (b + 256 * rest) % 256 == b && (b + 256 * rest) / 256 == rest
  {
  }

  /** The i-th byte is the i-th least significant digit to base 256. */
  lemma {:induction false} EncodeAt(w: nat, n: nat, i: nat)
    requires i < n
    ensures Encode(w, n)[i] == w / Span(i) % 256
    decreases n
  {
    if i > 0 {
      EncodeAt(w / 256, n - 1, i - 1);
      QuotientOfQuotient(w, Span(i - 1));
    }
  }

  lemma QuotientOfQuotient(w: nat, p: nat)
    requires p > 0
    ensures w / 256 / p == w / (256 * p)
  {
    var q, rest := w / 256 / p, w / 256 % p;
    assert w / 256 == q * p + rest;
    assert w == q * (256 * p) + (256 * rest + w % 256) by { assert q * (256 * p) == 256 * (q * p); }
    DivModUnique(256 * rest + w % 256, q, 256 * p);
  }

  lemma SpanOfWords()
    ensures Span(4) == TWO_32 && Span(8) == TWO_64
  {
  }

  function LE32(w: Word32): (s: Bytes)
    ensures |s| == 4
  {
    Encode(w, 4)
  }

  function LE64(w: Word64): (s: Bytes)
    ensures |s| == 8
  {
    Encode(w, 8)
  }

  function Load64(s: Bytes): (w: Word64)
    requires |s| == 8
  {
    DecodeBound(s);
    SpanOfWords();
    Decode(s)
  }

  /** store32 and store64 only differ in how many bytes they write. */
  method Store(dst: array<Byte>, at: nat, w: nat, n: nat)
    requires at + n <= dst.Length
    modifies dst
    ensures dst[..] == old(dst[..at]) + Encode(w, n) + old(dst[at + n..])
  {
    var rest := w;
    for i := 0 to n
      invariant dst[..at] == old(dst[..at]) && dst[at + n..] == old(dst[at + n..])
      invariant Encode(w, n) == dst[at..at + i] + Encode(rest, n - i)
    {
      ghost var was := dst[at..at + i];
      dst[at + i] := LowByte(rest);
      assert dst[at..at + i + 1] == was + [LowByte(rest)];
      rest := rest / 256;
    }
  }

  /** Eight-byte words side by side. */
  function Words64(ws: seq<Word64>): (s: Bytes)
    ensures |s| == 8 * |ws|
  {
    if ws == [] then [] else Words64(ws[..|ws| - 1]) + LE64(ws[|ws| - 1])
  }

  /** The words in the first 8 * n bytes. */
  function LoadWords(s: Bytes, n: nat): (ws: seq<Word64>)
    requires |s| >= 8 * n
    ensures |ws| == n
    decreases |s|, n
  {
    if n == 0 then [] else LoadWords(s, n - 1) + [Load64(s[8 * (n - 1)..8 * n])]
  }

  lemma {:induction false} LoadWordsPrefix(s: Bytes, t: Bytes, n: nat)
    requires |s| >= 8 * n
    ensures LoadWords(s + t, n) == LoadWords(s, n)
    decreases n
  {
    if n > 0 {
      LoadWordsPrefix(s, t, n - 1);
      assert (s + t)[8 * (n - 1)..8 * n] == s[8 * (n - 1)..8 * n];
    }
  }

  lemma LoadStored64(w: Word64)
    ensures Load64(LE64(w)) == w
  {
    SpanOfWords();
    DecodeEncode(w, 8);
  }

  lemma LoadAppended(s: Bytes, n: nat, w: Word64)
    requires |s| == 8 * n
    ensures LoadWords(s + LE64(w), n + 1) == LoadWords(s, n) + [w]
  {
    hide LE64, Load64;
    LoadWordsPrefix(s, LE64(w), n);
    assert (s + LE64(w))[8 * n..8 * (n + 1)] == LE64(w);
    LoadStored64(w);
  }

  /** load_block undoes store_block. */
  lemma {:induction false} LoadStored(ws: seq<Word64>)
    ensures LoadWords(Words64(ws), |ws|) == ws
  {
    hide LE64;
    if ws != [] {
      var init, last := ws[..|ws| - 1], ws[|ws| - 1];
      LoadStored(init);
      LoadAppended(Words64(init), |init|, last);
    }
  }

  /** Where store_block puts the i-th word. */
  lemma {:induction false} WordsAt(ws: seq<Word64>, i: nat)
    requires i < |ws|
    ensures Words64(ws)[8 * i..8 * i + 8] == LE64(ws[i])
  {
    hide LE64;
    var init := ws[..|ws| - 1];
    if i < |ws| - 1 {
      WordsAt(init, i);
      assert Words64(ws)[8 * i..8 * i + 8] == Words64(init)[8 * i..8 * i + 8];
    }
  }

  lemma StoreLoaded64(s: Bytes)
    requires |s| == 8
    ensures LE64(Load64(s)) == s
  {
    EncodeDecode(s);
  }

  /** store_block undoes load_block. */
  lemma {:induction false} StoreLoaded(s: Bytes, n: nat)
    requires |s| >= 8 * n
    ensures Words64(LoadWords(s, n)) == s[..8 * n]
    decreases n
  {
    hide LE64, Load64;
    if n > 0 {
      StoreLoaded(s, n - 1);
      StoreLoaded64(s[8 * (n - 1)..8 * n]);
      assert LoadWords(s, n)[..n - 1] == LoadWords(s, n - 1);
      assert s[..8 * n] == s[..8 * (n - 1)] + s[8 * (n - 1)..8 * n];
    }
  }
}
