/** argon2_ctx as a whole: the tag it writes is the one of section 3.2 of RFC 9106. */
module Argon2 {
  import opened Words
  import opened LittleEndian
  import opened Mixing
  import opened BlaMka
  import Bits
  import opened Geometry
  import opened Filling
  import opened Context
  import FB = FillBlock
  import B2 = Blake2b
  import LongHash
  import FS = FillSegment
  import Schedule
  import WordSchedule
  import Initialised

  type Block = FB.Block

  /** The two primitives left open: the compression function of BLAKE2b and the words of the block mixing. */
  datatype Primitives = Primitives(f: B2.Compression, o: WordOps)

  // ---- H0 ----

  function TypeCode(kind: Type): (y: Word32) {
    match kind
    case Argon2d => 0
    case Argon2i => 1
    case Argon2id => 2
  }

  function Field(s: Short): Bytes {
    LE32(|s|) + s
  }

  /** The string hashed into H0. */
  function Seed(c: Input, kind: Type): Bytes {
    LE32(c.lanes) + (LE32(c.outlen) + (LE32(c.mCost) + (LE32(c.tCost) + (LE32(c.version) + (LE32(TypeCode(kind)) +
      (Field(c.pwd.Content()) + (Field(c.salt.Content()) + (Field(c.secret.Content()) + Field(c.ad.Content())))))))))
  }

  function H0(f: B2.Compression, c: Input, kind: Type): (h: Bytes)
    ensures |h| == B2.OUT_BYTES
  {
    B2.Digest(f, B2.OUT_BYTES, Seed(c, kind))
  }

  lemma PeelWord(a: Word32, b: Word32, x: Bytes, y: Bytes)
    requires LE32(a) + x == LE32(b) + y
    ensures a == b && x == y
  {
    assert LE32(a) == (LE32(a) + x)[..4] == LE32(b);
    assert x == (LE32(a) + x)[4..] == y;
    SpanOfWords();
    DecodeEncode(a, 4);
    DecodeEncode(b, 4);
  }

  lemma PeelField(p: Short, q: Short, x: Bytes, y: Bytes)
    requires Field(p) + x == Field(q) + y
    ensures p == q && x == y
  {
    assert Field(p) + x == LE32(|p|) + (p + x) && Field(q) + y == LE32(|q|) + (q + y);
    PeelWord(|p|, |q|, p + x, q + y);
    assert p == (p + x)[..|p|] && q == (q + y)[..|p|];
    assert x == (p + x)[|p|..] && y == (q + y)[|p|..];
  }

  /** Different inputs are never hashed from the same string: every field can be read back. */
  lemma SeedInjective(c: Input, kind: Type, d: Input, kind': Type)
    requires Seed(c, kind) == Seed(d, kind')
    ensures kind == kind' && c.lanes == d.lanes && c.outlen == d.outlen && c.mCost == d.mCost && c.tCost == d.tCost
    ensures c.version == d.version
    ensures c.pwd.Content() == d.pwd.Content() && c.salt.Content() == d.salt.Content()
    ensures c.secret.Content() == d.secret.Content() && c.ad.Content() == d.ad.Content()
  {
    hide LE32, Field;
    var c9, d9 := Field(c.ad.Content()), Field(d.ad.Content());
    var c8, d8 := Field(c.secret.Content()) + c9, Field(d.secret.Content()) + d9;
    var c7, d7 := Field(c.salt.Content()) + c8, Field(d.salt.Content()) + d8;
    var c6, d6 := Field(c.pwd.Content()) + c7, Field(d.pwd.Content()) + d7;
    var c5, d5 := LE32(TypeCode(kind)) + c6, LE32(TypeCode(kind')) + d6;
    var c4, d4 := LE32(c.version) + c5, LE32(d.version) + d5;
    var c3, d3 := LE32(c.tCost) + c4, LE32(d.tCost) + d4;
    var c2, d2 := LE32(c.mCost) + c3, LE32(d.mCost) + d3;
    var c1, d1 := LE32(c.outlen) + c2, LE32(d.outlen) + d2;
    PeelWord(c.lanes, d.lanes, c1, d1);
    PeelWord(c.outlen, d.outlen, c2, d2);
    PeelWord(c.mCost, d.mCost, c3, d3);
    PeelWord(c.tCost, d.tCost, c4, d4);
    PeelWord(c.version, d.version, c5, d5);
    PeelWord(TypeCode(kind), TypeCode(kind'), c6, d6);
    PeelField(c.pwd.Content(), d.pwd.Content(), c7, d7);
    PeelField(c.salt.Content(), d.salt.Content(), c8, d8);
    PeelField(c.secret.Content(), d.secret.Content(), c9, d9);
    assert c9 == c9 + [] && d9 == d9 + [];
    PeelField(c.ad.Content(), d.ad.Content(), [], []);
  }

  /** Section 3.2 of RFC 9106: p, T, m, t, v and y as four-byte words, then P, S, K and X after their lengths. */
  lemma SeedLayout(c: Input, kind: Type)
    ensures var s := Seed(c, kind);
      var pwd, salt := c.pwd.Content(), c.salt.Content();
      var secret, ad := c.secret.Content(), c.ad.Content();
      && |s| == 40 + |pwd| + |salt| + |secret| + |ad|
      && s[0..4] == LE32(c.lanes) && s[4..8] == LE32(c.outlen) && s[8..12] == LE32(c.mCost)
      && s[12..16] == LE32(c.tCost) && s[16..20] == LE32(c.version)
      && s[20..24] == [if kind == Argon2d then 0 else if kind == Argon2i then 1 else 2, 0, 0, 0]
      && s[24..] == LE32(|pwd|) + pwd + LE32(|salt|) + salt + LE32(|secret|) + secret + LE32(|ad|) + ad
  {
    hide LE32, TypeCode;
    TypeCodeIs(kind);
    SmallWord(TypeCode(kind));
  }

  lemma TypeCodeIs(kind: Type)
    ensures TypeCode(kind) == if kind == Argon2d then 0 else if kind == Argon2i then 1 else 2
  {
  }

  lemma SmallWord(y: Word32)
    requires y < 256
    ensures LE32(y) == [y, 0, 0, 0]
  {
    assert Encode(y, 4) == [y] + Encode(0, 3) && Encode(0, 3) == [0] + Encode(0, 2);
    assert Encode(0, 2) == [0] + Encode(0, 1);
  }

  /** The words and then the four fields of the hashed string, as one concatenation from the left. */
  function SeedWords(c: Input, kind: Type): Bytes {
    LE32(c.lanes) + LE32(c.outlen) + LE32(c.mCost) + LE32(c.tCost) + LE32(c.version) + LE32(TypeCode(kind))
  }

  lemma SeedFlat(c: Input, kind: Type)
    ensures Seed(c, kind) == SeedWords(c, kind)
      + Field(c.pwd.Content()) + Field(c.salt.Content()) + Field(c.secret.Content()) + Field(c.ad.Content())
  {
  }

  /** initial_hash, for a context that has passed validation. */
  method InitialHash(f: B2.Compression, c: Input, kind: Type) returns (h: Bytes)
    requires Acceptable(c)
    ensures h == H0(f, c, kind)
  {
    hide Seed, SeedWords, Field, LE32, B2.Output, B2.Start, B2.State.Valid;
    var s := new B2.State(f, B2.OUT_BYTES);
    AbsorbWords(s, c, kind);
    AbsorbField(s, c.pwd);
    AbsorbField(s, c.salt);
    AbsorbField(s, c.secret);
    AbsorbField(s, c.ad);
    SeedFlat(c, kind);
    var out := new Byte[B2.OUT_BYTES];
    var r := s.Final(out, B2.OUT_BYTES);
    h := out[..];
  }

  method AbsorbWords(s: B2.State, c: Input, kind: Type)
    requires s.Valid() && s.f0 == 0 && s.data == []
    modifies s, s.buf
    ensures s.Valid() && s.f0 == 0 && s.outlen == old(s.outlen)
    ensures s.data == SeedWords(c, kind)
  {
    hide LE32, B2.State.Valid;
    AbsorbWord(s, c.lanes);
    AbsorbWord(s, c.outlen);
    AbsorbWord(s, c.mCost);
    AbsorbWord(s, c.tCost);
    AbsorbWord(s, c.version);
    AbsorbWord(s, TypeCode(kind));
    assert [] + LE32(c.lanes) == LE32(c.lanes);
  }

  method AbsorbWord(s: B2.State, w: Word32)
    requires s.Valid() && s.f0 == 0
    modifies s, s.buf
    ensures s.Valid() && s.f0 == 0 && s.outlen == old(s.outlen)
    ensures s.data == old(s.data) + LE32(w)
  {
    hide LE32, B2.State.Valid;
    var r := s.Update(LE32(w));
  }

  method AbsorbField(s: B2.State, b: Buffer)
    requires s.Valid() && s.f0 == 0 && (b.Null? ==> b.Len() == 0)
    modifies s, s.buf
    ensures s.Valid() && s.f0 == 0 && s.outlen == old(s.outlen)
    ensures s.data == old(s.data) + Field(b.Content())
  {
    hide LE32, B2.State.Valid;
    AbsorbWord(s, b.Len());
    if b.Ptr? {
      var r := s.Update(b.data);
      assert old(s.data) + LE32(b.Len()) + b.data == old(s.data) + (LE32(b.Len()) + b.data);
    } else {
      assert LE32(0) + [] == LE32(0);
    }
  }

  // ---- the block operations fill_segment works with ----

  function WordOf(b: Block, n: nat): Word64 {
    if n < FB.WORDS then b[n] else 0
  }

  /** The input block fill_segment prepares for next_addresses. */
  function InputBlock(h: Header): (b: Block) {
    var place := FB.ZERO_BLOCK[0 := h.pass][1 := h.lane][2 := h.slice];
    place[3 := h.memoryBlocks][4 := h.passes][5 := TypeCode(h.kind)][6 := h.counter]
  }

  function KernelOf(o: WordOps): Kernel<Block> {
    Kernel<Block>.Kernel((x: Block, y: Block) => FB.Compress(o, x, y), (a: Block, b: Block) => FB.XorBlocks(o, a, b),
      (b: Block, n: nat) => WordOf(b, n), h => InputBlock(h), FB.ZERO_BLOCK)
  }

  /** The block stored by the filling specification is what fill_block leaves in the current block. */
  lemma StoredByFillBlock(o: WordOps, i: Instance, p: Position, prev: Block, ref: Block, prior: Block)
    requires Coherent(o)
    ensures NewBlock(KernelOf(o), i, p, prev, ref, prior) == FB.Fill(o, prev, ref, prior, WithXor(i, p))
  {
    hide FB.Compress, FB.Fill, FB.XorBlocks, Coherent;
    FB.FillIsCompress(o, prev, ref, prior, WithXor(i, p));
  }

  /** The address words of the filling specification are those next_addresses computes in place. */
  lemma AddressedByNextAddresses(o: WordOps, h: Header)
    ensures FB.Bump(InputBlock(h)) == InputBlock(h.(counter := U64(h.counter + 1)))
    ensures Addresses(KernelOf(o), h) == FB.Addresses(o, InputBlock(h))
  {
    hide FB.Compress;
  }

  /** Section 3.4.1.2 of RFC 9106: r, l, sl, m', t, y and the counter as eight-byte words, then 968 zero bytes. */
  lemma InputBlockIs(h: Header)
    ensures Words64(InputBlock(h)) == LE64(h.pass) + LE64(h.lane) + LE64(h.slice) + LE64(h.memoryBlocks)
      + LE64(h.passes) + LE64(if h.kind == Argon2d then 0 else if h.kind == Argon2i then 1 else 2) + LE64(h.counter)
      + Zeros(968)
  {
    hide LE64;
    var b := InputBlock(h);
    forall n | 0 <= n < 1024
      ensures Words64(b)[n] == LE64(b[n / 8])[n % 8]
    {
      WordsAt(b, n / 8);
      assert Words64(b)[n] == Words64(b)[8 * (n / 8)..8 * (n / 8) + 8][n % 8];
    }
    ZeroWord();
  }

  lemma ZeroWord()
    ensures LE64(0) == Zeros(8)
  {
    B2.EncodeZero(8);
  }

  // ---- the first two columns ----

  const BLOCK_SIZE: Word32 := 1024

  /** B[l][0] and B[l][1] of section 3.2 of RFC 9106. */
  function FirstBlock(f: B2.Compression, h0: Bytes, l: Word32, c: Word32): (b: Block) {
    LoadWords(LongHash.LongDigest(f, BLOCK_SIZE, h0 + LE32(c) + LE32(l)), FB.WORDS)
  }

  function FirstRow(f: B2.Compression, h0: Bytes, l: Word32, row: seq<Block>): (r: seq<Block>)
    requires |row| >= 2
  {
    row[0 := FirstBlock(f, h0, l, 0)][1 := FirstBlock(f, h0, l, 1)]
  }

  function Replaced(m: Matrix<Block>, l: Word32, f: B2.Compression, h0: Bytes, i: Instance): (m': Matrix<Block>)
    requires Valid(i) && Shaped(i, m) && l < i.lanes
    ensures Shaped(i, m')
  {
    m[l := FirstRow(f, h0, l, m[l])]
  }

  /** The matrix with the first two blocks of its first `n` rows replaced. */
  function FirstColumns(f: B2.Compression, h0: Bytes, i: Instance, m: Matrix<Block>, n: Word32): (m': Matrix<Block>)
    requires Valid(i) && Shaped(i, m) && n <= i.lanes
    ensures Shaped(i, m')
    decreases |m|, n
  {
    if n == 0 then m
    else
      Replaced(FirstColumns(f, h0, i, m, n - 1), n - 1, f, h0, i)
  }

  lemma {:induction false} FirstColumnsAt(
    f: B2.Compression, h0: Bytes, i: Instance, m: Matrix<Block>, n: Word32, l: nat)
    requires Valid(i) && Shaped(i, m) && n <= i.lanes && l < i.lanes
    ensures FirstColumns(f, h0, i, m, n)[l] == if l < n then FirstRow(f, h0, l, m[l]) else m[l]
    decreases n
  {
    hide FirstRow;
    if n > 0 {
      FirstColumnsAt(f, h0, i, m, n - 1, l);
    }
  }

  /** fill_first_blocks for one block: H'(H0 || column || lane), read as little-endian words. */
  method MakeFirstBlock(f: B2.Compression, blockhash: array<Byte>, l: Word32, c: Word32) returns (b: Block)
    requires blockhash.Length == B2.OUT_BYTES + 8
    modifies blockhash
    ensures blockhash[..B2.OUT_BYTES] == old(blockhash[..B2.OUT_BYTES])
    ensures b == FirstBlock(f, blockhash[..B2.OUT_BYTES], l, c)
  {
    hide LongHash.LongDigest;
    ghost var h0 := blockhash[..B2.OUT_BYTES];
    LittleEndian.Store(blockhash, B2.OUT_BYTES, c, 4);
    LittleEndian.Store(blockhash, B2.OUT_BYTES + 4, l, 4);
    assert blockhash[..] == h0 + LE32(c) + LE32(l);
    var bytes := new Byte[BLOCK_SIZE];
    var r := LongHash.Blake2bLong(f, bytes, BLOCK_SIZE, blockhash[..]);
    assert bytes[..] == LongHash.LongDigest(f, BLOCK_SIZE, blockhash[..]);
    b := LoadWords(bytes[..], FB.WORDS);
  }

  method FillFirstBlocks(f: B2.Compression, h0: Bytes, i: Instance, memory: array<Block>)
    requires |h0| == B2.OUT_BYTES && Valid(i) && memory.Length == i.memoryBlocks
    modifies memory
    ensures FS.Rows(i, memory[..]) == FirstColumns(f, h0, i, FS.Rows(i, old(memory[..])), i.lanes)
  {
    hide FS.Rows, FirstBlock;
    var blockhash := new Byte[B2.OUT_BYTES + 8];
    B2.CopyTo(blockhash, 0, h0);
    ghost var base := FS.Rows(i, memory[..]);
    var l: Word32 := 0;
    while l < i.lanes
      invariant l <= i.lanes && blockhash[..B2.OUT_BYTES] == h0
      invariant FS.Rows(i, memory[..]) == FirstColumns(f, h0, i, base, l)
    {
      ghost var flat: seq<Block> := memory[..];
      FS.OffsetBound(i, l, 1);
      FS.RowsUpdate(i, flat, l, 0, FirstBlock(f, h0, l, 0));
      ghost var half: seq<Block> := flat[FS.Offset(i, l, 0) := FirstBlock(f, h0, l, 0)];
      FS.RowsUpdate(i, half, l, 1, FirstBlock(f, h0, l, 1));
      memory[l * i.laneLength + 0] := MakeFirstBlock(f, blockhash, l, 0);
      memory[l * i.laneLength + 1] := MakeFirstBlock(f, blockhash, l, 1);
      assert memory[..] == half[FS.Offset(i, l, 1) := FirstBlock(f, h0, l, 1)];
      l := l + 1;
    }
  }

  // ---- the tag ----

  /** The exclusive or of the last blocks of the first `n` lanes. */
  function LastColumn(o: WordOps, i: Instance, m: Matrix<Block>, n: nat): (b: Block)
    requires Valid(i) && Shaped(i, m) && 1 <= n <= i.lanes
    decreases |m|, n
  {
    if n == 1 then m[0][i.laneLength - 1]
    else FB.XorBlocks(o, LastColumn(o, i, m, n - 1), m[n - 1][i.laneLength - 1])
  }

  function TagOf(p: Primitives, i: Instance, m: Matrix<Block>, outlen: Word32): (tag: Bytes)
    requires Valid(i) && Shaped(i, m) && outlen >= 1
    ensures |tag| == outlen
  {
    LongHash.LongDigest(p.f, outlen, Words64(LastColumn(p.o, i, m, i.lanes)))
  }

  /** The last block of lane l; its offset fits in `uint32_t`. */
  method LastBlock(i: Instance, memory: array<Block>, l: Word32) returns (b: Block)
    requires Valid(i) && memory.Length == i.memoryBlocks && l < i.lanes
    ensures b == FS.Rows(i, memory[..])[l][i.laneLength - 1]
  {
    FS.RowsAt(i, memory[..], l, i.laneLength - 1);
    FS.OffsetBound(i, l, i.laneLength - 1);
    b := memory[U32(l * i.laneLength + (i.laneLength - 1))];
  }

  method Finalize(p: Primitives, i: Instance, memory: array<Block>, out: array<Byte>, outlen: Word32)
    requires Valid(i) && memory.Length == i.memoryBlocks && 1 <= outlen <= out.Length
    modifies out
    ensures out[..] == TagOf(p, i, FS.Rows(i, memory[..]), outlen) + old(out[outlen..])
  {
    hide FS.Rows, FB.XorBlocks, LongHash.LongDigest, Words64;
    ghost var m := FS.Rows(i, memory[..]);
    var blockhash := LastBlock(i, memory, 0);
    var l: Word32 := 1;
    while l < i.lanes
      invariant 1 <= l <= i.lanes
      invariant blockhash == LastColumn(p.o, i, m, l) && out[..] == old(out[..])
    {
      var last := LastBlock(i, memory, l);
      blockhash := FB.XorBlocks(p.o, blockhash, last);
      l := l + 1;
    }
    var r := LongHash.Blake2bLong(p.f, out, outlen, Words64(blockhash));
  }

  /** In how many of the first `n` lanes bit j of word w of the last block is set. */
  function Ones(i: Instance, m: Matrix<Block>, n: nat, w: nat, j: nat): nat
    requires Valid(i) && Shaped(i, m) && n <= i.lanes && w < 128
    decreases |m|, n
  {
    if n == 0 then 0 else Bits.Bit(m[n - 1][i.laneLength - 1][w], j) + Ones(i, m, n - 1, w, j)
  }

  /** The hashed block is the parity, bit by bit, of the last column: no lane is left out or taken twice. */
  lemma {:induction false} LastColumnIsParity(i: Instance, m: Matrix<Block>, n: nat, w: nat, j: nat)
    requires Valid(i) && Shaped(i, m) && 1 <= n <= i.lanes && w < 128 && j < 64
    ensures Bits.Bit(LastColumn(BLAMKA, i, m, n)[w], j) == Ones(i, m, n, w, j) % 2
    decreases |m|, n
  {
    hide Bits.Bit;
    if n == 1 {
      assert Ones(i, m, 0, w, j) == 0;
    } else {
      LastColumnIsParity(i, m, n - 1, w, j);
      var last := m[n - 1][i.laneLength - 1];
      BlaMkaXorBit(LastColumn(BLAMKA, i, m, n - 1)[w], last[w], j);
    }
  }

  lemma BlaMkaXorBit(a: Word64, b: Word64, j: nat)
    requires j < 64
    ensures Bits.Bit(BLAMKA.xor(a, b), j) == (Bits.Bit(a, j) + Bits.Bit(b, j)) % 2
  {
    Bits.XorBit(a, b, j);
  }

  // ---- argon2_ctx ----

  function ZeroRow(n: nat): (r: seq<Block>) {
    seq(n, c => FB.ZERO_BLOCK)
  }

  function ZeroMatrix(i: Instance): (m: Matrix<Block>)
    ensures Shaped(i, m)
  {
    seq(i.lanes, l => ZeroRow(i.laneLength))
  }

  /** Memory as initialize leaves it, over whatever the allocator returned. */
  function InitialMemory(p: Primitives, c: Input, kind: Type, garbage: Matrix<Block>): (m: Matrix<Block>)
    requires Acceptable(c) && Shaped(InstanceOf(c, kind), garbage)
    ensures Shaped(InstanceOf(c, kind), m)
  {
    var i := InstanceOf(c, kind);
    FirstColumns(p.f, H0(p.f, c, kind), i, garbage, i.lanes)
  }

  /** Section 3.2 of RFC 9106, steps 3 and 4: the bytes of B[l][0] and B[l][1]. */
  lemma FirstTwoBlocks(p: Primitives, c: Input, kind: Type, garbage: Matrix<Block>, l: Word32)
    requires Acceptable(c) && Shaped(InstanceOf(c, kind), garbage) && l < InstanceOf(c, kind).lanes
    ensures var row := InitialMemory(p, c, kind, garbage)[l];
      && Words64(row[0]) == LongHash.LongDigest(p.f, 1024, H0(p.f, c, kind) + [0, 0, 0, 0] + LE32(l))
      && Words64(row[1]) == LongHash.LongDigest(p.f, 1024, H0(p.f, c, kind) + [1, 0, 0, 0] + LE32(l))
  {
    hide InstanceOf, H0, LE32, LongHash.LongDigest, LoadWords, Words64;
    var i, h0 := InstanceOf(c, kind), H0(p.f, c, kind);
    FirstColumnsAt(p.f, h0, i, garbage, i.lanes, l);
    SmallWord(0);
    SmallWord(1);
    FirstBlockBytes(p.f, h0, l, 0);
    FirstBlockBytes(p.f, h0, l, 1);
  }

  lemma FirstBlockBytes(f: B2.Compression, h0: Bytes, l: Word32, c: Word32)
    ensures Words64(FirstBlock(f, h0, l, c)) == LongHash.LongDigest(f, 1024, h0 + LE32(c) + LE32(l))
  {
    hide LE32, LongHash.LongDigest, LoadWords, Words64;
    var bytes := LongHash.LongDigest(f, BLOCK_SIZE, h0 + LE32(c) + LE32(l));
    StoreLoaded(bytes, FB.WORDS);
    assert bytes[..8 * FB.WORDS] == bytes;
  }

  /** The tag of section 3.2 of RFC 9106. */
  function Tag(p: Primitives, c: Input, kind: Type): (tag: Bytes)
    requires Acceptable(c)
    ensures |tag| == c.outlen
  {
    var i := InstanceOf(c, kind);
    TagOf(p, i, Passes(KernelOf(p.o), i, InitialMemory(p, c, kind, ZeroMatrix(i)), i.passes), c.outlen)
  }

  /** What the allocator returned does not show in the filled memory. */
  lemma FilledFromGarbage(p: Primitives, c: Input, kind: Type, garbage: Matrix<Block>)
    requires Acceptable(c) && Shaped(InstanceOf(c, kind), garbage)
    ensures var i := InstanceOf(c, kind);
      Passes(KernelOf(p.o), i, InitialMemory(p, c, kind, garbage), i.passes)
        == Passes(KernelOf(p.o), i, InitialMemory(p, c, kind, ZeroMatrix(i)), i.passes)
  {
    hide InstanceOf, H0, KernelOf, FirstBlock;
    var i, h0 := InstanceOf(c, kind), H0(p.f, c, kind);
    var a, b := InitialMemory(p, c, kind, garbage), InitialMemory(p, c, kind, ZeroMatrix(i));
    forall l: nat | l < i.lanes
      ensures a[l][0] == b[l][0] && a[l][1] == b[l][1]
    {
      FirstColumnsAt(p.f, h0, i, garbage, i.lanes, l);
      FirstColumnsAt(p.f, h0, i, ZeroMatrix(i), i.lanes, l);
    }
    Initialised.GarbageIrrelevant(KernelOf(p.o), i, a, b, i.passes);
  }

  /** argon2_ctx with the single-threaded filler. */
  method Argon2Ctx(p: Primitives, c: Input, kind: Type, out: array<Byte>) returns (code: Code)
    requires c.outlen <= out.Length
    modifies out
    ensures code == ValidateInputs(c)
    ensures code == Ok ==> Acceptable(c) && out[..] == Tag(p, c, kind) + old(out[c.outlen..])
    ensures code != Ok ==> out[..] == old(out[..])
  {
    hide FS.Rows, FirstColumns, InstanceOf, KernelOf, TagOf, Passes, ValidateInputs;
    code := ValidateInputs(c);
    AcceptedExactly(c);
    if code != Ok {
      return;
    }
    var i := InstanceOf(c, kind);
    var memory := new Block[i.memoryBlocks];
    ghost var garbage := FS.Rows(i, memory[..]);
    var h0 := InitialHash(p.f, c, kind);
    FillFirstBlocks(p.f, h0, i, memory);
    FS.FillMemoryBlocksSt(KernelOf(p.o), i, memory);
    FilledFromGarbage(p, c, kind, garbage);
    Finalize(p, i, memory, out, c.outlen);
  }

  /** With any number of threads and under any schedule that finishes, the tag is the same. */
  lemma TagUnderAnySchedule(
    p: Primitives, c: Input, kind: Type, garbage: Matrix<Block>, acts: seq<Schedule.Action>, t: Schedule.State<Block>)
    requires Acceptable(c) && Shaped(InstanceOf(c, kind), garbage)
    requires var i := InstanceOf(c, kind);
      Schedule.Runs(KernelOf(p.o), i, Schedule.Initial(i, InitialMemory(p, c, kind, garbage)), acts, t)
    requires t.phase.Finished?
    ensures Shaped(InstanceOf(c, kind), t.mem) && TagOf(p, InstanceOf(c, kind), t.mem, c.outlen) == Tag(p, c, kind)
  {
    hide InstanceOf, KernelOf, TagOf, Passes, InitialMemory;
    var i := InstanceOf(c, kind);
    Schedule.ScheduleIndependence(KernelOf(p.o), i, InitialMemory(p, c, kind, garbage), acts, t);
    FilledFromGarbage(p, c, kind, garbage);
  }

  lemma KernelUsesFirstWord(o: WordOps)
    ensures WordSchedule.UsesFirstWord(KernelOf(o))
  {
  }

  /** Nor does it change when the threads' accesses to memory interleave word by word. */
  lemma TagUnderAnyWordSchedule(
    p: Primitives, c: Input, kind: Type, garbage: Matrix<Block>, acts: seq<WordSchedule.Action>,
    t: WordSchedule.State)
    requires Acceptable(c) && Shaped(InstanceOf(c, kind), garbage)
    requires var i := InstanceOf(c, kind);
      WordSchedule.Runs(KernelOf(p.o), i, WordSchedule.Initial(i, InitialMemory(p, c, kind, garbage)), acts, t)
    requires t.phase.Finished?
    ensures Shaped(InstanceOf(c, kind), t.mem) && TagOf(p, InstanceOf(c, kind), t.mem, c.outlen) == Tag(p, c, kind)
  {
    hide InstanceOf, KernelOf, TagOf, Passes, InitialMemory;
    var i := InstanceOf(c, kind);
    KernelUsesFirstWord(p.o);
    WordSchedule.WordScheduleIndependence(KernelOf(p.o), i, InitialMemory(p, c, kind, garbage), acts, t);
    FilledFromGarbage(p, c, kind, garbage);
  }
}
