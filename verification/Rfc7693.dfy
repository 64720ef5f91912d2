/** BLAKE2b as section 3.3 of RFC 7693 writes it, block by block from the front, and that Blake2b.dfy computes it. */
module Rfc7693 {
  import opened Words
  import opened LittleEndian
  import opened Blake2b

  /** F(h, m, t, last) of section 3.2: the offset counter as two words, and the final block flag. */
  function F(f: Compression, h: Chain, m: Bytes, t: nat, last: bool): Chain {
    f(h, m, t % 0x1_0000_0000_0000_0000, t / 0x1_0000_0000_0000_0000 % 0x1_0000_0000_0000_0000,
      if last then 0xFFFF_FFFF_FFFF_FFFF else 0, 0)
  }

  /** The parameter block p[0] = 0x0101kknn exclusive-ored into h[0]. */
  function FirstChain(nn: nat, kk: nat): (h: Chain)
    requires nn <= 64 && kk <= 64
  {
    IV[0 := Xor64(Xor64(Xor64(IV[0], 0x0101_0000), 256 * kk), nn)]
  }

  /** The message cut into blocks of 128 bytes, the last padded with zeros. */
  function Cut(d: Bytes): (blocks: seq<Bytes>) {
    if d == [] then []
    else if |d| <= 128 then [d + Zeros(128 - |d|)]
    else [d[..128]] + Cut(d[128..])
  }

  /** d[0], ..., d[dd-1]: the padded key comes first, and an unkeyed empty message is one zero block. */
  function DataBlocks(key: Bytes, d: Bytes): (blocks: seq<Bytes>)
    requires |key| <= 64
    ensures blocks != []
  {
    if key != [] then [key + Zeros(128 - |key|)] + Cut(d)
    else if d == [] then [Zeros(128)]
    else Cut(d)
  }

  /** The blocks from number i on; `total` is the value of the counter for the last of them. */
  function Absorb(f: Compression, h: Chain, blocks: seq<Bytes>, i: nat, total: nat): Chain
    requires blocks != []
    decreases |blocks|
  {
    if |blocks| == 1 then F(f, h, blocks[0], total, true)
    else Absorb(f, F(f, h, blocks[0], (i + 1) * 128, false), blocks[1..], i + 1, total)
  }

  /** BLAKE2b(d, ll, kk, nn). */
  function Hash(f: Compression, nn: nat, key: Bytes, d: Bytes): (r: Bytes)
    requires 1 <= nn <= 64 && |key| <= 64
    ensures |r| == nn
  {
    var total := if key == [] then |d| else |d| + 128;
    Words64(Absorb(f, FirstChain(nn, |key|), DataBlocks(key, d), 0, total))[..nn]
  }

  // ---- the first chain value ----

  lemma DoubleIs(a: nat, k: nat)
    requires k > 0
    ensures a * Pow2(k) == 2 * (a * Pow2(k - 1))
  {
    assert Pow2(k) == 2 * Pow2(k - 1);
  }

  /** Exclusive or of numbers without a common bit is their sum. */
  lemma {:induction false} XorOfJoined(a: nat, b: nat, k: nat, n: nat)
    requires b < Pow2(k) && k <= n && a * Pow2(k) < Pow2(n)
    ensures XorBits(a * Pow2(k), b, n) == a * Pow2(k) + b
    decreases k
  {
    if k == 0 {
      assert Pow2(0) == 1;
      XorBitsZero(a, n);
    } else {
      var high := a * Pow2(k - 1);
      DoubleIs(a, k);
      assert Pow2(n) == 2 * Pow2(n - 1) && Pow2(k) == 2 * Pow2(k - 1);
      XorOfJoined(a, b / 2, k - 1, n - 1);
      JoinedStep(high, b, n);
    }
  }

  lemma JoinedStep(high: nat, b: nat, n: nat)
    requires n > 0 && XorBits(high, b / 2, n - 1) == high + b / 2
    ensures XorBits(2 * high, b, n) == 2 * high + b
  {
    hide XorBits, Pow2;
    XorStep(2 * high, b, n);
    assert 2 * high / 2 == high;
  }

  lemma {:induction false} XorBitsAssociative(a: nat, b: nat, c: nat, n: nat)
    ensures XorBits(XorBits(a, b, n), c, n) == XorBits(a, XorBits(b, c, n), n)
    decreases n
  {
    XorBitsSymmetric(a, b, n);
    XorBitsSwap(b, a, c, n);
    XorBitsSymmetric(XorBits(b, c, n), a, n);
  }

  lemma FirstChainIs(nn: nat, kk: nat)
    requires nn <= 64 && kk <= 64
    ensures FirstChain(nn, kk) == Start(nn, kk)
  {
    hide XorBits, Pow2;
    var first, rest := IV[0], 0x0101_0000 + 256 * kk;
    Powers();
    XorOfJoined(0x101, 256 * kk, 16, 64);
    XorOfJoined(0x1_0100 + kk, nn, 8, 64);
    XorBitsAssociative(first, 0x0101_0000, 256 * kk, 64);
    XorBitsAssociative(first, rest, nn, 64);
  }

  lemma Powers()
    ensures Pow2(8) == 256 && Pow2(16) == 0x1_0000 && Pow2(64) == TWO_64
  {
    Pow2OfWords();
  }

  // ---- the blocks ----

  /** Absorbing whole blocks one by one from the front is `Blocks`. */
  lemma {:induction false} AbsorbFrom(f: Compression, start: Chain, d: Bytes, n: nat)
    requires d != [] && 128 * n < |d|
    ensures Absorb(f, Blocks(f, start, d, n), Cut(d[128 * n..]), n, |d|) == LastChain(f, start, d)
    decreases |d| - 128 * n
  {
    hide LastChain, Blocks;
    var tail := d[128 * n..];
    if |tail| <= 128 {
      CompressedIs(d, n);
      LastBlock(f, start, d);
    } else {
      assert tail[..128] == d[128 * n..128 * (n + 1)] && tail[128..] == d[128 * (n + 1)..];
      NextBlock(f, start, d, n);
      AbsorbFrom(f, start, d, n + 1);
      assert Cut(tail)[1..] == Cut(tail[128..]);
    }
  }

  lemma NextBlock(f: Compression, start: Chain, d: Bytes, n: nat)
    requires 128 * (n + 1) <= |d|
    ensures Blocks(f, start, d, n + 1)
         == F(f, Blocks(f, start, d, n), d[128 * n..128 * (n + 1)], (n + 1) * 128, false)
  {
  }

  lemma AbsorbAll(f: Compression, start: Chain, d: Bytes)
    requires d != []
    ensures Absorb(f, start, Cut(d), 0, |d|) == LastChain(f, start, d)
  {
    assert d[128 * 0..] == d;
    AbsorbFrom(f, start, d, 0);
  }

  lemma CutKeyed(b: Bytes, d: Bytes)
    requires |b| == 128
    ensures Cut(b + d) == [b] + Cut(d)
  {
    if d == [] {
      assert b + d == b && b + Zeros(0) == b;
    } else {
      assert (b + d)[..128] == b && (b + d)[128..] == d;
    }
  }

  lemma AbsorbNothing(f: Compression, start: Chain)
    ensures Absorb(f, start, [Zeros(128)], 0, 0) == LastChain(f, start, [])
  {
    LastBlock(f, start, []);
    assert [] + Zeros(128) == Zeros(128);
  }

  /** The hash the streaming state is proved against is the one of RFC 7693, for every key, message and length. */
  lemma DigestIsHash(f: Compression, nn: nat, key: Bytes, d: Bytes)
    requires 1 <= nn <= 64 && |key| <= 64
    ensures KeyedDigest(f, nn, key, d) == Hash(f, nn, key, d)
  {
    hide Absorb, Cut, LastChain, FirstChain, Start, Words64;
    FirstChainIs(nn, |key|);
    var start := Start(nn, |key|);
    if key != [] {
      CutKeyed(KeyBlock(key), d);
      AbsorbAll(f, start, KeyBlock(key) + d);
    } else if d == [] {
      AbsorbNothing(f, start);
    } else {
      AbsorbAll(f, start, d);
    }
  }

  /** Section 2.6: IV[i] holds the first 64 bits of the fraction of the square root of `prime`. */
  predicate RootOf(iv: Word64, prime: nat, whole: nat) {
    var root := whole * 0x1_0000_0000_0000_0000 + iv;
    var scaled := prime * 0x1_0000_0000_0000_0000_0000_0000_0000_0000;
    root * root <= scaled < (root + 1) * (root + 1)
  }

  lemma IVIsRoots()
    ensures RootOf(IV[0], 2, 1) && RootOf(IV[1], 3, 1) && RootOf(IV[2], 5, 2) && RootOf(IV[3], 7, 2)
    ensures RootOf(IV[4], 11, 3) && RootOf(IV[5], 13, 3) && RootOf(IV[6], 17, 4) && RootOf(IV[7], 19, 4)
  {
  }
}
