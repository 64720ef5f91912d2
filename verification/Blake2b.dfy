/** The streaming state of blake2b.c, over any compression function, against section 3 of RFC 7693. */
module Blake2b {
  import opened Words
  import opened LittleEndian

  const BLOCK_BYTES: nat := 128
  const OUT_BYTES: nat := 64
  const KEY_BYTES: nat := 64
  const ALL_ONES: Word64 := 0xFFFF_FFFF_FFFF_FFFF

  const IV: seq<Word64> := [
    0x6a09e667f3bcc908, 0xbb67ae8584caa73b, 0x3c6ef372fe94f82b, 0xa54ff53a5f1d36f1,
    0x510e527fade682d1, 0x9b05688c2b3e6c1f, 0x1f83d9abfb41bd6b, 0x5be0cd19137e2179]

  type Chain = h: seq<Word64> | |h| == 8 witness IV

  /** blake2b_compress as a function of h, the block, t[0], t[1], f[0] and f[1]. */
  type Compression = (Chain, Bytes, Word64, Word64, Word64, Word64) -> Chain

  // ---- the one-shot hash of section 3.3 of RFC 7693 ----

  /** IV with 0x01010000 ^ (kk << 8) ^ nn, whose bits are disjoint, folded into the first word. */
  function Start(nn: nat, kk: nat): (h: Chain)
    requires nn <= OUT_BYTES && kk <= KEY_BYTES
  {
    IV[0 := Xor64(IV[0], 0x0101_0000 + 256 * kk + nn)]
  }

  /** blake2b_param of a sequential hash: digest length, key length, fanout 1, depth 1, zeros. */
  function ParameterBlock(nn: Byte, kk: Byte): (p: Bytes)
    ensures |p| == 64
  {
    [nn, kk, 1, 1] + Zeros(60)
  }

  /** The initial chain value of blake2b_init_param. */
  method InitParam(p: Bytes) returns (h: Chain)
    requires |p| == 64
    ensures forall i | 0 <= i < 8 :: h[i] == Xor64(IV[i], Load64(p[8 * i..8 * i + 8]))
  {
    hide Xor64, Load64;
    var words := new Word64[8];
    for i := 0 to 8
      invariant forall k | 0 <= k < i :: words[k] == Xor64(IV[k], Load64(p[8 * k..8 * k + 8]))
    {
      words[i] := Xor64(IV[i], Load64(p[8 * i..8 * i + 8]));
    }
    h := words[..];
  }

  lemma ZeroWord(s: Bytes)
    requires s == Zeros(8)
    ensures Load64(s) == 0
  {
    assert Encode(0, 8) == s by { EncodeZero(8); }
    SpanOfWords();
    DecodeEncode(0, 8);
  }

  lemma {:induction false} EncodeZero(n: nat)
    ensures Encode(0, n) == Zeros(n)
  {
    if n > 0 {
      EncodeZero(n - 1);
    }
  }

  lemma FirstWord(nn: Byte, kk: Byte, s: Bytes)
    requires s == [nn, kk, 1, 1] + Zeros(4)
    ensures Load64(s) == 0x0101_0000 + 256 * kk + nn
  {
    assert s[1..] == [kk, 1, 1] + Zeros(4) && s[1..][1..] == [1, 1] + Zeros(4);
    assert s[1..][1..][1..] == [1] + Zeros(4) && s[1..][1..][1..][1..] == Zeros(4) == Encode(0, 4) by { EncodeZero(4); }
    SpanOfWords();
    DecodeEncode(0, 4);
    assert Decode(s[1..][1..][1..]) == 1;
    assert Decode(s[1..][1..]) == 257;
    assert Decode(s[1..]) == 65792 + kk;
  }

  /** Loading the parameter block word by word and folding it in changes the first word only. */
  lemma StartIs(nn: Byte, kk: Byte, h: Chain)
    requires nn <= OUT_BYTES && kk <= KEY_BYTES
    requires forall i | 0 <= i < 8 :: h[i] == Xor64(IV[i], Load64(ParameterBlock(nn, kk)[8 * i..8 * i + 8]))
    ensures h == Start(nn, kk)
  {
    hide Xor64, Load64;
    var p := ParameterBlock(nn, kk);
    assert p[8 * 0..8 * 0 + 8] == [nn, kk, 1, 1] + Zeros(4);
    FirstWord(nn, kk, p[8 * 0..8 * 0 + 8]);
    forall i | 1 <= i < 8
      ensures h[i] == IV[i]
    {
      assert p[8 * i..8 * i + 8] == Zeros(8);
      ZeroWord(p[8 * i..8 * i + 8]);
      Xor64Zero(IV[i]);
    }
  }

  /** The low and high words of the 128-bit offset counter. */
  function Low(n: nat): Word64 {
    U64(n)
  }

  function High(n: nat): Word64 {
    U64(n / TWO_64)
  }

  /** The chain value after the first `n` blocks of `d`, none of them the last. */
  function Blocks(f: Compression, start: Chain, d: Bytes, n: nat): (h: Chain)
    requires BLOCK_BYTES * n <= |d|
    decreases |d|, n
  {
    if n == 0 then start
    else
      f(Blocks(f, start, d, n - 1), d[BLOCK_BYTES * (n - 1)..BLOCK_BYTES * n],
        Low(BLOCK_BYTES * n), High(BLOCK_BYTES * n), 0, 0)
  }

  /** How many blocks the message is padded to: one even when it is empty. */
  function BlockCount(d: Bytes): (dd: nat)
    ensures dd >= 1 && BLOCK_BYTES * (dd - 1) <= |d| <= BLOCK_BYTES * dd
  {
    if d == [] then 1 else (|d| + BLOCK_BYTES - 1) / BLOCK_BYTES
  }

  function Padded(d: Bytes): (p: Bytes)
    ensures |p| == BLOCK_BYTES * BlockCount(d)
  {
    d + Zeros(BLOCK_BYTES * BlockCount(d) - |d|)
  }

  function LastChain(f: Compression, start: Chain, d: Bytes): (h: Chain) {
    var n := BlockCount(d) - 1;
    f(Blocks(f, start, Padded(d), n), Padded(d)[BLOCK_BYTES * n..], Low(|d|), High(|d|), ALL_ONES, 0)
  }

  /** The first `nn` bytes of the last chain value. */
  function Output(f: Compression, start: Chain, nn: nat, d: Bytes): (r: Bytes)
    requires nn <= OUT_BYTES
    ensures |r| == nn
  {
    Words64(LastChain(f, start, d))[..nn]
  }

  /** The hash without a key. */
  function Digest(f: Compression, nn: nat, d: Bytes): (r: Bytes)
    requires 1 <= nn <= OUT_BYTES
    ensures |r| == nn
  {
    Output(f, Start(nn, 0), nn, d)
  }

  /** The block a key is padded to. */
  function KeyBlock(key: Bytes): (b: Bytes)
    requires |key| <= KEY_BYTES
    ensures |b| == BLOCK_BYTES
  {
    key + Zeros(BLOCK_BYTES - |key|)
  }

  /** The hash with a key: the key's block goes before the message. */
  function KeyedDigest(f: Compression, nn: nat, key: Bytes, d: Bytes): (r: Bytes)
    requires 1 <= nn <= OUT_BYTES && |key| <= KEY_BYTES
    ensures |r| == nn
  {
    if key == [] then Digest(f, nn, d) else Output(f, Start(nn, |key|), nn, KeyBlock(key) + d)
  }

  lemma {:induction false} BlocksPrefix(f: Compression, start: Chain, d: Bytes, e: Bytes, n: nat)
    requires BLOCK_BYTES * n <= |d|
    ensures Blocks(f, start, d + e, n) == Blocks(f, start, d, n)
    decreases n
  {
    if n > 0 {
      BlocksPrefix(f, start, d, e, n - 1);
      assert (d + e)[BLOCK_BYTES * (n - 1)..BLOCK_BYTES * n] == d[BLOCK_BYTES * (n - 1)..BLOCK_BYTES * n];
    }
  }

  // ---- the counter ----

  lemma CarryStep(r: nat, q: nat, inc: nat, m: nat)
    requires m > 1 && r < m && inc < m
    ensures (r + inc) % m < inc <==> r + inc >= m
    ensures (q * m + r + inc) % m == (r + inc) % m
    ensures (q * m + r + inc) / m == if r + inc >= m then q + 1 else q
  {
    if r + inc >= m {
      RemainderOf(r + inc, 1, r + inc - m, m);
      assert q * m + r + inc == (q + 1) * m + (r + inc - m);
      DivModUnique(r + inc - m, q + 1, m);
    } else {
      RemainderOf(r + inc, 0, r + inc, m);
      DivModUnique(r + inc, q, m);
    }
  }

  /** The two-word addition of blake2b_increment_counter is addition modulo 2^128. */
  lemma CounterAdds(n: nat, inc: Word64)
    ensures U64(Low(n) + inc) == Low(n + inc)
    ensures U64(High(n) + if U64(Low(n) + inc) < inc then 1 else 0) == High(n + inc)
  {
    var q, r := n / TWO_64, n % TWO_64;
    assert n == q * TWO_64 + r;
    CarryStep(r, q, inc, TWO_64);
    HighStep(q);
  }

  lemma HighStep(q: nat)
    ensures U64(U64(q) + 1) == U64(q + 1) && U64(U64(q) + 0) == U64(q)
  {
  }

  // ---- the state ----

  /** The number of blocks compressed once `d` has been absorbed: the last byte is always held back. */
  function Compressed(d: Bytes): (n: nat)
    ensures BLOCK_BYTES * n <= |d| <= BLOCK_BYTES * n + BLOCK_BYTES
    ensures d != [] ==> BLOCK_BYTES * n < |d|
  {
    if d == [] then 0 else (|d| - 1) / BLOCK_BYTES
  }

  lemma CompressedIs(d: Bytes, n: nat)
    requires BLOCK_BYTES * n < |d| <= BLOCK_BYTES * n + BLOCK_BYTES
    ensures Compressed(d) == n
  {
  }

  /** The block that begins in what has been absorbed and ends in the new input. */
  lemma BlockAcross(data: Bytes, input: Bytes, a: nat, fill: nat)
    requires a <= |data| && fill <= |input| && |data| - a + fill == BLOCK_BYTES
    ensures (data + input)[a..a + BLOCK_BYTES] == data[a..] + input[..fill]
  {
  }

  class State {
    const f: Compression
    var h: Chain
    var t0: Word64
    var t1: Word64
    var f0: Word64
    const buf: array<Byte>
    var buflen: nat
    var outlen: nat
    ghost var data: Bytes
    ghost const start: Chain

    /** The state is the one determined by the concatenation `d` of everything absorbed. */
    ghost predicate Absorbed(d: Bytes)
      reads this, buf
    {
      && 1 <= outlen <= OUT_BYTES && buf.Length == BLOCK_BYTES
      && h == Blocks(f, start, d, Compressed(d))
      && t0 == Low(BLOCK_BYTES * Compressed(d)) && t1 == High(BLOCK_BYTES * Compressed(d))
      && buflen == |d| - BLOCK_BYTES * Compressed(d)
      && buf[..buflen] == d[BLOCK_BYTES * Compressed(d)..]
    }

    ghost predicate Valid()
      reads this, buf
    {
      buf.Length == BLOCK_BYTES && (f0 == 0 ==> Absorbed(data))
    }

    /** blake2b_init, for every requested length; a refused length leaves an unusable state. */
    constructor (compression: Compression, nn: nat)
      ensures Valid() && fresh(buf)
      ensures f == compression && f0 == (if 1 <= nn <= OUT_BYTES then 0 else ALL_ONES)
      ensures 1 <= nn <= OUT_BYTES ==> outlen == nn && data == [] && start == Start(nn, 0)
    {
      f := compression;
      buf := new Byte[BLOCK_BYTES];
      buflen, data := 0, [];
      t0, t1 := 0, 0;
      if nn == 0 || nn > OUT_BYTES {
        h, f0, outlen, start := [0, 0, 0, 0, 0, 0, 0, 0], ALL_ONES, 0, IV;
      } else {
        var initial := InitParam(ParameterBlock(nn, 0));
        StartIs(nn, 0, initial);
        h, f0, outlen, start := initial, 0, nn, initial;
      }
    }

    /** blake2b_init_key: the padded key is absorbed as the first block. */
    constructor Keyed(compression: Compression, nn: nat, key: Bytes)
      ensures Valid() && fresh(buf) && f == compression
      ensures f0 == (if 1 <= nn <= OUT_BYTES && 1 <= |key| <= KEY_BYTES then 0 else ALL_ONES)
      ensures f0 == 0 ==> outlen == nn && data == KeyBlock(key) && start == Start(nn, |key|)
    {
      f := compression;
      buf := new Byte[BLOCK_BYTES];
      buflen, data := 0, [];
      t0, t1 := 0, 0;
      if nn == 0 || nn > OUT_BYTES || |key| == 0 || |key| > KEY_BYTES {
        h, f0, outlen, start := [0, 0, 0, 0, 0, 0, 0, 0], ALL_ONES, 0, IV;
      } else {
        var initial := InitParam(ParameterBlock(nn, |key|));
        StartIs(nn, |key|, initial);
        h, f0, outlen, start := initial, 0, nn, initial;
      }
      new;
      if f0 == 0 {
        assert [] + KeyBlock(key) == KeyBlock(key);
        var r := Update(KeyBlock(key));
      }
    }

    method IncrementCounter(inc: Word64, ghost n: nat)
      requires t0 == Low(n) && t1 == High(n)
      modifies this`t0, this`t1
      ensures t0 == Low(n + inc) && t1 == High(n + inc)
    {
      CounterAdds(n, inc);
      t0 := U64(t0 + inc);
      t1 := U64(t1 + if t0 < inc then 1 else 0);
    }

    /** Counting and compressing one block that is not the last. */
    method TakeBlock(block: Bytes, ghost d: Bytes, ghost n: nat)
      requires BLOCK_BYTES * n + BLOCK_BYTES <= |d| && f0 == 0
      requires h == Blocks(f, start, d, n) && t0 == Low(BLOCK_BYTES * n) && t1 == High(BLOCK_BYTES * n)
      requires block == d[BLOCK_BYTES * n..BLOCK_BYTES * n + BLOCK_BYTES]
      modifies this`h, this`t0, this`t1
      ensures h == Blocks(f, start, d, n + 1)
      ensures t0 == Low(BLOCK_BYTES * (n + 1)) && t1 == High(BLOCK_BYTES * (n + 1))
    {
      IncrementCounter(BLOCK_BYTES, BLOCK_BYTES * n);
      h := f(h, block, t0, t1, f0, 0);
    }

    method Fill(at: nat, bytes: Bytes)
      requires buf.Length == BLOCK_BYTES && at + |bytes| <= BLOCK_BYTES
      modifies buf
      ensures buf[..at] == old(buf[..at]) && buf[at..at + |bytes|] == bytes
    {
      for j := 0 to |bytes|
        invariant buf[..at] == old(buf[..at]) && buf[at..at + j] == bytes[..j]
      {
        buf[at + j] := bytes[j];
        assert buf[at..at + j + 1] == buf[at..at + j] + [bytes[j]];
      }
    }

    /** blake2b_update: whatever the cut, the state afterwards is that of the concatenation. */
    method Update(input: Bytes) returns (r: int)
      requires Valid()
      modifies this, buf
      ensures Valid() && f0 == old(f0) && outlen == old(outlen)
      ensures r == if input != [] && f0 != 0 then -1 else 0
      ensures data == if r == 0 && f0 == 0 then old(data) + input else old(data)
    {
      hide Blocks, Low, High;
      if |input| == 0 {
        assert data + input == data;
        return 0;
      }
      if f0 != 0 {
        return -1;
      }
      ghost var d := data + input;
      var pin := 0;
      ghost var n := Compressed(data);
      BlocksPrefix(f, start, data, input, n);
      if buflen + |input| > BLOCK_BYTES {
        pin := FirstBlock(input, d, n);
        n := n + 1;
        while |input| - pin > BLOCK_BYTES
          invariant f0 == buflen == 0 && outlen == old(outlen) && data == old(data)
          invariant 0 <= pin < |input| && |old(data)| + pin == BLOCK_BYTES * n
          invariant h == Blocks(f, start, d, n)
          invariant t0 == Low(BLOCK_BYTES * n) && t1 == High(BLOCK_BYTES * n)
        {
          assert input[pin..pin + BLOCK_BYTES] == d[BLOCK_BYTES * n..BLOCK_BYTES * n + BLOCK_BYTES];
          TakeBlock(input[pin..pin + BLOCK_BYTES], d, n);
          pin, n := pin + BLOCK_BYTES, n + 1;
        }
      }
      CompressedIs(d, n);
      Fill(buflen, input[pin..]);
      buflen, data := buflen + |input| - pin, d;
      return 0;
    }

    /** Completing the block in the buffer and compressing it. */
    method FirstBlock(input: Bytes, ghost d: Bytes, ghost n: nat) returns (fill: nat)
      requires Valid() && f0 == 0 && buflen + |input| > BLOCK_BYTES
      requires d == data + input && n == Compressed(data) && h == Blocks(f, start, d, n)
      modifies this`h, this`t0, this`t1, this`buflen, buf
      ensures fill < |input| && |data| + fill == BLOCK_BYTES * (n + 1) && buflen == 0
      ensures h == Blocks(f, start, d, n + 1)
      ensures t0 == Low(BLOCK_BYTES * (n + 1)) && t1 == High(BLOCK_BYTES * (n + 1))
    {
      hide Blocks, Low, High, Compressed;
      fill := BLOCK_BYTES - buflen;
      BlockAcross(data, input, BLOCK_BYTES * n, fill);
      Fill(buflen, input[..fill]);
      assert buf[..] == buf[..buflen] + buf[buflen..buflen + fill];
      TakeBlock(buf[..], d, n);
      buflen := 0;
    }

    /** blake2b_final: the RFC 7693 digest of everything absorbed; a second call is refused. */
    method Final(out: array<Byte>, len: nat) returns (r: int)
      requires Valid() && len <= out.Length && out != buf
      modifies this, buf, out
      ensures Valid() && outlen == old(outlen)
      ensures r == if len < old(outlen) || old(f0) != 0 then -1 else 0
      ensures r == 0 ==> f0 == ALL_ONES && out[..] == Output(f, start, outlen, old(data)) + old(out[outlen..])
      ensures r != 0 ==> f0 == old(f0) && data == old(data) && out[..] == old(out[..])
    {
      hide Blocks, Low, High, LastChain, Words64;
      if len < outlen {
        return -1;
      }
      if f0 != 0 {
        return -1;
      }
      ghost var n := Compressed(data);
      LastBlock(f, start, data);
      IncrementCounter(buflen, BLOCK_BYTES * n);
      f0 := ALL_ONES;
      Fill(buflen, Zeros(BLOCK_BYTES - buflen));
      assert buf[..] == buf[..buflen] + buf[buflen..buflen + (BLOCK_BYTES - buflen)];
      h := f(h, buf[..], t0, t1, f0, 0);
      assert h == LastChain(f, start, data);
      var buffer := Words64(h);
      CopyTo(out, 0, buffer[..outlen]);
      return 0;
    }
  }

  /** memcpy into `out` at offset `at`. */
  method CopyTo(out: array<Byte>, at: nat, bytes: Bytes)
    requires at + |bytes| <= out.Length
    modifies out
    ensures out[..] == old(out[..at]) + bytes + old(out[at + |bytes|..])
  {
    for j := 0 to |bytes|
      invariant out[..at] == old(out[..at]) && out[at..at + j] == bytes[..j]
      invariant out[at + j..] == old(out[at + j..])
    {
      ghost var was := out[at..at + j];
      out[at + j] := bytes[j];
      assert out[at..at + j + 1] == was + [bytes[j]];
    }
  }

  /** The held-back bytes, padded with zeros, are the last block of the padded message. */
  lemma LastBlock(f: Compression, start: Chain, d: Bytes)
    ensures Compressed(d) == BlockCount(d) - 1
    ensures var n := Compressed(d); var tail := d[BLOCK_BYTES * n..];
      LastChain(f, start, d)
        == f(Blocks(f, start, d, n), tail + Zeros(BLOCK_BYTES - |tail|), Low(|d|), High(|d|), ALL_ONES, 0)
  {
    var n := Compressed(d);
    var pad := Zeros(BLOCK_BYTES * BlockCount(d) - |d|);
    BlocksPrefix(f, start, d, pad, n);
    assert (d + pad)[BLOCK_BYTES * n..] == d[BLOCK_BYTES * n..] + pad;
  }

  function Concat(pieces: seq<Bytes>): (d: Bytes) {
    if pieces == [] then [] else Concat(pieces[..|pieces| - 1]) + pieces[|pieces| - 1]
  }

  /** Any way of cutting a message into updates gives the one-shot digest of the whole message. */
  method HashPieces(f: Compression, nn: nat, pieces: seq<Bytes>) returns (r: int, digest: Bytes)
    ensures r == if 1 <= nn <= OUT_BYTES then 0 else -1
    ensures r == 0 ==> digest == Digest(f, nn, Concat(pieces))
  {
    var s := new State(f, nn);
    if nn == 0 || nn > OUT_BYTES {
      return -1, [];
    }
    for i := 0 to |pieces|
      invariant s.Valid() && fresh(s) && fresh(s.buf) && s.f0 == 0 && s.outlen == nn
      invariant s.data == Concat(pieces[..i])
    {
      r := s.Update(pieces[i]);
      assert pieces[..i + 1][..i] == pieces[..i];
    }
    assert pieces[..|pieces|] == pieces;
    var out := new Byte[nn];
    r := s.Final(out, nn);
    digest := out[..];
  }

  /** The function blake2b, with a key or, when that is empty, without. */
  method HashOnce(f: Compression, out: array<Byte>, len: nat, input: Bytes, key: Bytes) returns (r: int)
    requires len <= out.Length
    modifies out
    ensures r == if 1 <= len <= OUT_BYTES && |key| <= KEY_BYTES then 0 else -1
    ensures out[..] == if r == 0 then KeyedDigest(f, len, key, input) + old(out[len..]) else old(out[..])
  {
    hide Output, Start, KeyBlock, State.Valid;
    if len == 0 || len > OUT_BYTES {
      return -1;
    }
    if |key| > KEY_BYTES {
      return -1;
    }
    var s: State;
    if |key| > 0 {
      s := new State.Keyed(f, len, key);
    } else {
      s := new State(f, len);
      assert [] + input == input;
    }
    r := s.Update(input);
    r := s.Final(out, len);
  }
}
