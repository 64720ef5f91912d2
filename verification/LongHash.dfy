/** blake2b_long against the variable-length hash H' of section 3.3 of RFC 9106. */
module LongHash {
  import opened Words
  import opened LittleEndian
  import opened Blake2b

  const HALF_BYTES: nat := 32

  /** The digests V_1, V_2, ... of which H' emits the first halves. */
  function V(f: Compression, len: Word32, a: Bytes, i: nat): (v: Bytes)
    requires i >= 1
    ensures |v| == OUT_BYTES
    decreases |a|, i
  {
    if i == 1 then Digest(f, OUT_BYTES, LE32(len) + a) else Digest(f, OUT_BYTES, V(f, len, a, i - 1))
  }

  function Halves(f: Compression, len: Word32, a: Bytes, n: nat): (w: Bytes)
    ensures |w| == HALF_BYTES * n
    decreases |a|, n
  {
    if n == 0 then [] else Halves(f, len, a, n - 1) + V(f, len, a, n)[..HALF_BYTES]
  }

  /** r = ceil(T/32) - 2. */
  function HalfCount(len: nat): (r: nat)
    requires len > OUT_BYTES
    ensures r >= 1 && HALF_BYTES * r + 33 <= len <= HALF_BYTES * r + 64
  {
    (len + 31) / HALF_BYTES - 2
  }

  function LongDigest(f: Compression, len: Word32, a: Bytes): (h: Bytes)
    requires len >= 1
    ensures |h| == len
  {
    if len <= OUT_BYTES then Digest(f, len, LE32(len) + a)
    else
      var r := HalfCount(len);
      Halves(f, len, a, r) + Digest(f, len - HALF_BYTES * r, V(f, len, a, r))
  }

  method HashPrefixed(f: Compression, out: array<Byte>, len: nat, prefix: Bytes, input: Bytes) returns (r: int)
    requires len <= out.Length
    modifies out
    ensures r == if 1 <= len <= OUT_BYTES then 0 else -1
    ensures out[..] == if r == 0 then Digest(f, len, prefix + input) + old(out[len..]) else old(out[..])
  {
    hide Output, Start, LE32, State.Valid;
    var s := new State(f, len);
    if len == 0 || len > OUT_BYTES {
      return -1;
    }
    r := s.Update(prefix);
    r := s.Update(input);
    assert [] + prefix + input == prefix + input;
    r := s.Final(out, len);
  }

  /** blake2b_long writes exactly `len` bytes, those of H', and refuses length 0 and lengths over 32 bits. */
  method Blake2bLong(f: Compression, out: array<Byte>, len: nat, input: Bytes) returns (r: int)
    requires len <= out.Length
    modifies out
    ensures r == if 1 <= len < TWO_32 then 0 else -1
    ensures out[..] == if r == 0 then LongDigest(f, len, input) + old(out[len..]) else old(out[..])
  {
    if len >= TWO_32 {
      return -1;
    }
    if len <= OUT_BYTES {
      r := HashPrefixed(f, out, len, LE32(len), input);
    } else {
      r := LongOutput(f, out, len, input);
    }
  }

  method LongOutput(f: Compression, out: array<Byte>, len: Word32, input: Bytes) returns (r: int)
    requires OUT_BYTES < len <= out.Length
    modifies out
    ensures r == 0 && out[..] == LongDigest(f, len, input) + old(out[len..])
  {
    hide V, Halves, LE32, Digest;
    var outBuffer := new Byte[OUT_BYTES];
    r := HashPrefixed(f, outBuffer, OUT_BYTES, LE32(len), input);
    FirstHalf(f, len, input);
    ghost var tail := out[len..];
    CopyTo(out, 0, outBuffer[..HALF_BYTES]);
    assert out[len..] == tail;
    var pos := MiddleOutput(f, out, len, input, outBuffer);
    assert out[len..] == out[pos..][len - pos..] == tail;
    r := NextOutput(f, out, pos, outBuffer, len - pos, len - pos);
    assert out[..] == out[..pos] + out[pos..len] + tail;
  }

  /** The loop: one half digest after another while more than 64 bytes are to be produced. */
  method MiddleOutput(f: Compression, out: array<Byte>, len: Word32, input: Bytes, outBuffer: array<Byte>)
    returns (pos: nat)
    requires OUT_BYTES < len <= out.Length && out != outBuffer
    requires outBuffer.Length == OUT_BYTES && outBuffer[..] == V(f, len, input, 1)
    requires out[..HALF_BYTES] == Halves(f, len, input, 1)
    modifies out, outBuffer
    ensures pos == HALF_BYTES * HalfCount(len) && outBuffer[..] == V(f, len, input, HalfCount(len))
    ensures out[..pos] == Halves(f, len, input, HalfCount(len)) && out[pos..] == old(out[pos..])
  {
    hide V, Halves, Digest;
    pos := HALF_BYTES;
    var toProduce := len - HALF_BYTES;
    ghost var i := 1;
    while toProduce > OUT_BYTES
      invariant i >= 1 && pos == HALF_BYTES * i && toProduce == len - pos >= 33
      invariant outBuffer[..] == V(f, len, input, i)
      invariant out[..pos] == Halves(f, len, input, i) && out[pos..] == old(out[pos..])
    {
      var r := NextOutput(f, out, pos, outBuffer, OUT_BYTES, HALF_BYTES);
      NextHalf(f, len, input, i);
      pos, toProduce, i := pos + HALF_BYTES, toProduce - HALF_BYTES, i + 1;
    }
    LastPiece(len, i);
  }

  /** Hashing the 64-byte buffer to `n` bytes onto itself and emitting the first `m` of them. */
  method NextOutput(f: Compression, out: array<Byte>, pos: nat, outBuffer: array<Byte>, n: nat, m: nat) returns (r: int)
    requires outBuffer.Length == OUT_BYTES && pos + m <= out.Length && out != outBuffer
    requires m <= n && 1 <= n <= OUT_BYTES
    modifies out, outBuffer
    ensures r == 0 && outBuffer[..n] == Digest(f, n, old(outBuffer[..]))
    ensures out[..pos] == old(out[..pos]) && out[pos..pos + m] == outBuffer[..m]
    ensures out[pos + m..] == old(out[pos + m..])
  {
    hide Digest;
    var inBuffer := outBuffer[..];
    r := HashOnce(f, outBuffer, n, inBuffer, []);
    CopyTo(out, pos, outBuffer[..m]);
  }

  lemma FirstHalf(f: Compression, len: Word32, a: Bytes)
    ensures V(f, len, a, 1) == Digest(f, OUT_BYTES, LE32(len) + a)
    ensures Halves(f, len, a, 1) == V(f, len, a, 1)[..HALF_BYTES]
  {
    assert Halves(f, len, a, 0) == [];
  }

  lemma NextHalf(f: Compression, len: Word32, a: Bytes, i: nat)
    requires i >= 1
    ensures V(f, len, a, i + 1) == Digest(f, OUT_BYTES, V(f, len, a, i))
    ensures Halves(f, len, a, i + 1) == Halves(f, len, a, i) + V(f, len, a, i + 1)[..HALF_BYTES]
  {
  }

  /** When the loop stops, with a last digest of 33 to 64 bytes to come, exactly r halves have been written. */
  lemma LastPiece(len: nat, i: nat)
    requires i >= 1 && 33 <= len - HALF_BYTES * i <= OUT_BYTES < len
    ensures i == HalfCount(len)
  {
  }

  // ---- H' without counting halves ----

  /** The rest of H', `t` bytes of it, from the string `x` to be hashed next. */
  function Emitted(f: Compression, x: Bytes, t: nat): (h: Bytes)
    requires t >= 1
    ensures |h| == t
    decreases t
  {
    if t <= 64 then Digest(f, t, x)
    else
      var v := Digest(f, 64, x);
      v[..32] + Emitted(f, v, t - 32)
  }

  lemma {:induction false} EmittedAfter(f: Compression, len: Word32, a: Bytes, i: nat)
    requires len > OUT_BYTES && 1 <= i <= HalfCount(len)
    ensures Halves(f, len, a, i) + Emitted(f, V(f, len, a, i), len - HALF_BYTES * i) == LongDigest(f, len, a)
    decreases HalfCount(len) - i
  {
    hide V, Halves, Digest;
    if i < HalfCount(len) {
      EmittedAfter(f, len, a, i + 1);
      NextHalf(f, len, a, i);
      var v, rest := V(f, len, a, i + 1), len - HALF_BYTES * i;
      assert Emitted(f, V(f, len, a, i), rest) == v[..32] + Emitted(f, v, rest - 32);
      assert Halves(f, len, a, i) + (v[..32] + Emitted(f, v, rest - 32))
          == Halves(f, len, a, i) + v[..32] + Emitted(f, v, rest - 32);
    }
  }

  /** H'^T(A) begins with hashing LE32(T) || A and then hashes the previous digest, half of which it emits. */
  lemma LongDigestIs(f: Compression, len: Word32, a: Bytes)
    requires len >= 1
    ensures LongDigest(f, len, a) == Emitted(f, LE32(len) + a, len)
  {
    hide V, Halves, Digest, LE32;
    if len > OUT_BYTES {
      FirstHalf(f, len, a);
      EmittedAfter(f, len, a, 1);
      var v := V(f, len, a, 1);
      assert Emitted(f, LE32(len) + a, len) == v[..32] + Emitted(f, v, len - 32);
    }
  }
}
