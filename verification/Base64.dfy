/** The Base64 half of encoding.c: section 4 of RFC 4648 without padding, over C characters and `unsigned`. */
module Base64 {
  import opened Options

  type Text = seq<bv8>

  // ---- the comparison macros and the two character tables ----

  function EQ(x: bv32, y: bv32): bv32 {
    (((0 - (x ^ y)) >> 8) & 0xFF) ^ 0xFF
  }

  function GT(x: bv32, y: bv32): bv32 {
    ((y - x) >> 8) & 0xFF
  }

  function GE(x: bv32, y: bv32): bv32 {
    GT(y, x) ^ 0xFF
  }

  function LT(x: bv32, y: bv32): bv32 {
    GT(y, x)
  }

  function LE(x: bv32, y: bv32): bv32 {
    GE(y, x)
  }

  function ByteToChar(x: bv32): bv32 {
    (LT(x, 26) & (x + 0x41)) | (GE(x, 26) & LT(x, 52) & (x + (0x61 - 26))) |
    (GE(x, 52) & LT(x, 62) & (x - 4)) | (EQ(x, 62) & 0x2B) | (EQ(x, 63) & 0x2F)
  }

  function CharToByte(c: bv32): bv32 {
    var x := (GE(c, 0x41) & LE(c, 0x5A) & (c - 0x41)) | (GE(c, 0x61) & LE(c, 0x7A) & (c - (0x61 - 26))) |
             (GE(c, 0x30) & LE(c, 0x39) & (c + 4)) | (EQ(c, 0x2B) & 62) | (EQ(c, 0x2F) & 63);
    x | (EQ(x, 0) & (EQ(c, 0x41) ^ 0xFF))
  }

  /** A `char` promoted to `int` and cast to `unsigned`, where `char` is signed or not. */
  function Promote(c: bv8, signed: bool): bv32 {
    if signed && c >= 0x80 then (c as bv32) | 0xFFFF_FF00 else c as bv32
  }

  /** Table 1 of RFC 4648: A-Z, a-z, 0-9, + and /. */
  function Letter(x: bv8): bv8 {
    if x < 26 then x + 0x41 else if x < 52 then x + 0x47 else if x < 62 then x - 4 else if x == 62 then 0x2B else 0x2F
  }

  function Unletter(c: bv8): bv8 {
    if 0x41 <= c <= 0x5A then c - 0x41
    else if 0x61 <= c <= 0x7A then c - 0x47
    else if 0x30 <= c <= 0x39 then c + 4
    else if c == 0x2B then 62
    else if c == 0x2F then 63
    else 0xFF
  }

  /** What a character is decoded to: outside the 0..255 range the macros take any value for '+' and '/'. */
  function ValueOf(c: bv8, signed: bool): bv8 {
    if signed && c >= 0x80 then 63 else Unletter(c)
  }

  lemma ByteToCharIsLetter(x: bv32)
    requires x < 64
    ensures ByteToChar(x) == Letter(x as bv8) as bv32
  {
  }

  lemma CharToByteIsValue(c: bv8, signed: bool)
    ensures CharToByte(Promote(c, signed)) == ValueOf(c, signed) as bv32
  {
  }

  /** The characters of an ASCII string. */
  function Ascii(s: string): (t: Text)
    requires forall k | 0 <= k < |s| :: s[k] as int < 128
    ensures |t| == |s|
  {
    seq(|s|, k requires 0 <= k < |s| => AsciiCode(s[k]))
  }

  function AsciiCode(c: char): bv8
    requires c as int < 128
  {
    c as int as bv8
  }

  /** Table 1 of RFC 4648: the letters, the small letters, the digits, + and /. */
  lemma LetterInTable(x: nat)
    requires x < 64
    ensures Letter(x as bv8) as int ==
      if x < 26 then 'A' as int + x else if x < 52 then 'a' as int + (x - 26) else if x < 62 then '0' as int + (x - 52)
      else if x == 62 then '+' as int else '/' as int
  {
  }

  lemma LetterBijection(x: bv8, c: bv8)
    ensures x < 64 ==> Unletter(Letter(x)) == x && Letter(x) < 0x80
    ensures Unletter(c) != 0xFF ==> Unletter(c) < 64 && Letter(Unletter(c)) == c
  {
  }

  // ---- encoding ----

  /** b64len, and the length to_base64 computes first. */
  function EncodedLength(n: nat): (len: nat)
    ensures 3 * len >= 4 * n && (n > 0 ==> 3 * len < 4 * n + 3)
  {
    n / 3 * 4 + (if n % 3 == 2 then 3 else if n % 3 == 1 then 2 else 0)
  }

  /** The byte at index i of the input, or the zero bits added after its end. */
  function ByteAt(b: seq<bv8>, i: nat): bv8 {
    if i < |b| then b[i] else 0
  }

  /** The k-th group of six bits. */
  function Sextet(b: seq<bv8>, k: nat): (x: bv8)
    ensures x < 64
  {
    var q := k / 4 * 3;
    if k % 4 == 0 then ByteAt(b, q) >> 2
    else if k % 4 == 1 then ((ByteAt(b, q) & 3) << 4) | (ByteAt(b, q + 1) >> 4)
    else if k % 4 == 2 then ((ByteAt(b, q + 1) & 15) << 2) | (ByteAt(b, q + 2) >> 6)
    else ByteAt(b, q + 2) & 63
  }

  function CharAt(b: seq<bv8>, k: nat): bv8 {
    Letter(Sextet(b, k))
  }

  /** The unpadded Base64 text of `b`. */
  function Encode(b: seq<bv8>): (t: Text)
    ensures |t| == EncodedLength(|b|)
  {
    seq(EncodedLength(|b|), k requires 0 <= k => CharAt(b, k))
  }

  /** Low six bits of the accumulator after a shift, as to_base64 emits them. */
  function Emit(acc: bv32): bv8 {
    ((ByteToChar(acc & 0x3F)) & 0xFF) as bv8
  }

  lemma EmitIsLetter(acc: bv32)
    ensures Emit(acc) == Letter((acc & 0x3F) as bv8)
  {
    ByteToCharIsLetter(acc & 0x3F);
    LetterBijection((acc & 0x3F) as bv8, 0);
  }

  /** The accumulator after i bytes: its low bits are those not yet emitted, whatever the bits above hold. */
  predicate Pending(b: seq<bv8>, i: nat, acc: bv32, accLen: nat)
    requires i <= |b|
  {
    && accLen == 2 * (i % 3)
    && (i % 3 == 1 ==> acc & 3 == (b[i - 1] & 3) as bv32)
    && (i % 3 == 2 ==> acc & 15 == (b[i - 1] & 15) as bv32)
  }

  /** How many characters have been written after i bytes. */
  function Emitted(i: nat): nat {
    i / 3 * 4 + i % 3
  }

  function Shift(acc: bv32, x: bv8): bv32 {
    (acc << 8) + (x as bv32)
  }

  function Down(acc: bv32, n: nat): bv32
    requires n < 32
  {
    acc >> n
  }

  function Up(acc: bv32, n: nat): bv32
    requires n < 32
  {
    acc << n
  }

  lemma Shifts(acc: bv32)
    ensures Down(acc, 0) == acc && Down(acc, 2) == acc >> 2 && Down(acc, 4) == acc >> 4 && Down(acc, 6) == acc >> 6
    ensures Up(acc, 0) == acc && Up(acc, 2) == acc << 2 && Up(acc, 4) == acc << 4
  {
  }

  lemma FirstByte(acc: bv32, x: bv8)
    ensures Emit(Down(Shift(acc, x), 2)) == Letter(x >> 2) && Shift(acc, x) & 3 == (x & 3) as bv32
  {
    hide Letter, Up, Down;
    Shifts(Shift(acc, x));
    EmitIsLetter(Shift(acc, x) >> 2);
  }

  lemma SecondByte(acc: bv32, p: bv8, x: bv8)
    requires acc & 3 == (p & 3) as bv32
    ensures Emit(Down(Shift(acc, x), 4)) == Letter(((p & 3) << 4) | (x >> 4)) && Shift(acc, x) & 15 == (x & 15) as bv32
  {
    hide Letter, Up, Down;
    Shifts(Shift(acc, x));
    EmitIsLetter(Shift(acc, x) >> 4);
  }

  lemma ThirdByte(acc: bv32, p: bv8, x: bv8)
    requires acc & 15 == (p & 15) as bv32
    ensures Emit(Down(Shift(acc, x), 6)) == Letter(((p & 15) << 2) | (x >> 6))
    ensures Emit(Down(Shift(acc, x), 0)) == Letter(x & 63)
  {
    hide Letter, Up, Down;
    Shifts(Shift(acc, x));
    EmitIsLetter(Shift(acc, x) >> 6);
    EmitIsLetter(Shift(acc, x));
  }

  lemma FinalByte(acc: bv32, p: bv8)
    ensures acc & 3 == (p & 3) as bv32 ==> Emit(Up(acc, 4)) == Letter(((p & 3) << 4) | 0)
    ensures acc & 15 == (p & 15) as bv32 ==> Emit(Up(acc, 2)) == Letter(((p & 15) << 2) | 0)
  {
    hide Letter, Up, Down;
    Shifts(acc);
    EmitIsLetter(acc << 4);
    EmitIsLetter(acc << 2);
  }

  /** Where the three bytes of a group sit, by position in the group. */
  lemma GroupPosition(q: nat, r: nat)
    requires r < 4
    ensures (4 * q + r) / 4 == q && (4 * q + r) % 4 == r
  {
  }

  lemma SextetsOfGroup(b: seq<bv8>, q: nat)
    ensures Sextet(b, 4 * q) == ByteAt(b, 3 * q) >> 2
    ensures Sextet(b, 4 * q + 1) == ((ByteAt(b, 3 * q) & 3) << 4) | (ByteAt(b, 3 * q + 1) >> 4)
    ensures Sextet(b, 4 * q + 2) == ((ByteAt(b, 3 * q + 1) & 15) << 2) | (ByteAt(b, 3 * q + 2) >> 6)
    ensures Sextet(b, 4 * q + 3) == ByteAt(b, 3 * q + 2) & 63
  {
    hide ByteAt;
    GroupPosition(q, 0);
    GroupPosition(q, 1);
    GroupPosition(q, 2);
    GroupPosition(q, 3);
  }

  /** Taking one byte in: one character comes out, or two when the byte ends a group of three. */
  lemma PendingStep(b: seq<bv8>, i: nat, acc: bv32)
    requires i < |b| && Pending(b, i, acc, 2 * (i % 3))
    ensures var acc' := Shift(acc, b[i]);
      && Emit(Down(acc', 2 * (i % 3) + 2)) == CharAt(b, Emitted(i))
      && (i % 3 == 2 ==> Emit(Down(acc', 0)) == CharAt(b, Emitted(i) + 1))
      && Pending(b, i + 1, acc', 2 * ((i + 1) % 3))
  {
    hide Letter, Emit, Shift, Sextet, Down;
    SextetsOfGroup(b, i / 3);
    if i % 3 == 0 {
      FirstByte(acc, b[i]);
    } else if i % 3 == 1 {
      SecondByte(acc, b[i - 1], b[i]);
    } else {
      ThirdByte(acc, b[i - 1], b[i]);
    }
  }

  function Prefix(b: seq<bv8>, n: nat): (t: Text)
    ensures |t| == n
  {
    seq(n, k requires 0 <= k => CharAt(b, k))
  }

  /** Nothing from position `n` on has changed. */
  twostate predicate Kept(dst: array<bv8>, n: nat)
    reads dst
  {
    forall k | n <= k < dst.Length :: dst[k] == old(dst[k])
  }

  method PutChar(dst: array<bv8>, at: nat, ghost src: seq<bv8>, o: nat, c: bv8)
    requires at + o < dst.Length && dst[at..at + o] == Prefix(src, o) && c == CharAt(src, o)
    modifies dst
    ensures dst[..at] == old(dst[..at]) && dst[at..at + o + 1] == Prefix(src, o + 1)
    ensures Kept(dst, at + o + 1)
  {
    hide CharAt;
    dst[at + o] := c;
    assert dst[at..at + o + 1] == dst[at..at + o] + [c];
  }

  lemma EmittedBound(i: nat, n: nat)
    requires i <= n
    ensures Emitted(i) <= EncodedLength(n)
    ensures i < n ==> Emitted(i + 1) == Emitted(i) + (if i % 3 == 2 then 2 else 1)
    ensures i == n ==> EncodedLength(n) == Emitted(n) + (if n % 3 == 0 then 0 else 1)
  {
  }

  /** to_base64: the text and its terminating zero when they fit, and nothing otherwise. */
  method ToBase64(dst: array<bv8>, at: nat, dstLen: nat, src: seq<bv8>) returns (r: int)
    requires at + dstLen <= dst.Length
    modifies dst
    ensures r == if dstLen <= EncodedLength(|src|) then -1 else EncodedLength(|src|)
    ensures r < 0 ==> dst[..] == old(dst[..])
    ensures r >= 0 ==> dst[..at] == old(dst[..at]) && dst[at..at + r] == Encode(src) && dst[at + r] == 0
    ensures r >= 0 ==> Kept(dst, at + r + 1)
  {
    var olen := EncodedLength(|src|);
    if dstLen <= olen {
      return -1;
    }
    var o := WriteText(dst, at, src);
    dst[at + o] := 0;
    return olen;
  }

  /** The inner loop: emitting characters while six bits are there. */
  method EmitChars(dst: array<bv8>, at: nat, ghost src: seq<bv8>, ghost i: nat, count: nat, acc: bv32, bits: nat)
    returns (o: nat, accLen: nat)
    requires i < |src| && bits == 2 * (i % 3) + 8 && count == Emitted(i)
    requires at + EncodedLength(|src|) < dst.Length && at + count <= dst.Length
    requires dst[at..at + count] == Prefix(src, count)
    requires Emit(Down(acc, 2 * (i % 3) + 2)) == CharAt(src, count)
    requires i % 3 == 2 ==> Emit(Down(acc, 0)) == CharAt(src, count + 1)
    modifies dst
    ensures o == Emitted(i + 1) <= EncodedLength(|src|) && accLen == 2 * ((i + 1) % 3)
    ensures dst[..at] == old(dst[..at]) && dst[at..at + o] == Prefix(src, o) && Kept(dst, at + o)
  {
    hide Emit, CharAt, Down;
    EmittedBound(i, |src|);
    EmittedBound(i + 1, |src|);
    o, accLen := count, bits;
    while accLen >= 6
      invariant count <= o <= count + 2 && accLen == bits - 6 * (o - count)
      invariant dst[..at] == old(dst[..at]) && dst[at..at + o] == Prefix(src, o) && Kept(dst, at + o)
    {
      accLen := accLen - 6;
      PutChar(dst, at, src, o, Emit(Down(acc, accLen)));
      o := o + 1;
    }
  }

  method WriteText(dst: array<bv8>, at: nat, src: seq<bv8>) returns (o: nat)
    requires at + EncodedLength(|src|) < dst.Length
    modifies dst
    ensures o == EncodedLength(|src|)
    ensures dst[..at] == old(dst[..at]) && dst[at..at + o] == Encode(src) && Kept(dst, at + o)
  {
    hide Emit, CharAt, Shift, Down, Up, Encode;
    var acc: bv32, accLen := 0, 0;
    o := 0;
    for i := 0 to |src|
      invariant o == Emitted(i) <= EncodedLength(|src|) && Pending(src, i, acc, accLen)
      invariant dst[..at] == old(dst[..at]) && dst[at..at + o] == Prefix(src, o) && Kept(dst, at + o)
    {
      EmittedBound(i, |src|);
      EmittedBound(i + 1, |src|);
      PendingStep(src, i, acc);
      acc := Shift(acc, src[i]);
      o, accLen := EmitChars(dst, at, src, i, o, acc, accLen + 8);
    }
    o := FinishText(dst, at, src, o, acc, accLen);
  }

  /** The character for the last two or four bits. */
  method FinishText(dst: array<bv8>, at: nat, ghost src: seq<bv8>, count: nat, acc: bv32, accLen: nat) returns (o: nat)
    requires at + EncodedLength(|src|) < dst.Length && count == Emitted(|src|) <= EncodedLength(|src|)
    requires Pending(src, |src|, acc, accLen) && dst[at..at + count] == Prefix(src, count)
    modifies dst
    ensures o == EncodedLength(|src|)
    ensures dst[..at] == old(dst[..at]) && dst[at..at + o] == Encode(src) && Kept(dst, at + o)
  {
    hide Emit, CharAt, Up, Encode, EncodedLength;
    EmittedBound(|src|, |src|);
    o := count;
    if accLen > 0 {
      FinalChar(src, acc, accLen);
      PutChar(dst, at, src, o, Emit(Up(acc, 6 - accLen)));
      o := o + 1;
    }
    PrefixIsEncode(src);
  }

  lemma PrefixIsEncode(b: seq<bv8>)
    ensures Prefix(b, EncodedLength(|b|)) == Encode(b)
  {
  }

  lemma FinalChar(b: seq<bv8>, acc: bv32, accLen: nat)
    requires Pending(b, |b|, acc, accLen) && accLen > 0
    ensures Emit(Up(acc, 6 - accLen)) == CharAt(b, Emitted(|b|))
  {
    hide Letter, Emit, Up, Sextet;
    SextetsOfGroup(b, |b| / 3);
    FinalByte(acc, b[|b| - 1]);
  }

  // ---- decoding ----

  function Values(t: Text, signed: bool): (v: seq<bv8>)
    ensures |v| == |t|
  {
    seq(|t|, k requires 0 <= k < |t| => ValueOf(t[k], signed))
  }

  /** How many characters from `pos` on are taken for Base64. */
  function RunLength(t: Text, pos: nat, signed: bool): (n: nat)
    requires pos <= |t|
    ensures pos + n <= |t|
    ensures forall k | pos <= k < pos + n :: ValueOf(t[k], signed) != 0xFF
    ensures pos + n < |t| ==> ValueOf(t[pos + n], signed) == 0xFF
    decreases |t| - pos
  {
    if pos < |t| && ValueOf(t[pos], signed) != 0xFF then 1 + RunLength(t, pos + 1, signed) else 0
  }

  function DecodedLength(n: nat): nat {
    n * 3 / 4
  }

  function DecodedByte(v: seq<bv8>, j: nat): bv8
    requires j < DecodedLength(|v|)
  {
    var q := j / 3 * 4;
    if j % 3 == 0 then (v[q] << 2) | (v[q + 1] >> 4)
    else if j % 3 == 1 then ((v[q + 1] & 15) << 4) | (v[q + 2] >> 2)
    else ((v[q + 2] & 3) << 6) | v[q + 3]
  }

  function Decoded(v: seq<bv8>): (b: seq<bv8>)
    ensures |b| == DecodedLength(|v|)
  {
    seq(DecodedLength(|v|), j requires 0 <= j < DecodedLength(|v|) => DecodedByte(v, j))
  }

  /** No group of a single character, and zero in the bits that do not fill a byte. */
  predicate CleanTail(v: seq<bv8>) {
    && |v| % 4 != 1
    && (|v| % 4 == 2 ==> v[|v| - 1] & 15 == 0)
    && (|v| % 4 == 3 ==> v[|v| - 1] & 3 == 0)
  }

  /** The bits not yet turned into bytes after r characters of a group of four. */
  function Leftover(r: nat): nat {
    if r == 0 then 0 else if r == 1 then 6 else if r == 2 then 4 else 2
  }

  /** The accumulator after q groups and r characters: only its lowest bits matter. */
  predicate Buffered(v: seq<bv8>, q: nat, r: nat, acc: bv32)
    requires 4 * q + r <= |v|
  {
    && (r == 1 ==> acc & 63 == v[4 * q] as bv32)
    && (r == 2 ==> acc & 15 == (v[4 * q + 1] & 15) as bv32)
    && (r == 3 ==> acc & 3 == (v[4 * q + 2] & 3) as bv32)
  }

  function Push(acc: bv32, d: bv8): bv32 {
    (acc << 6) + (d as bv32)
  }

  function Byte(acc: bv32): bv8 {
    (acc & 0xFF) as bv8
  }

  lemma FirstChar(acc: bv32, d: bv8)
    requires d < 64
    ensures Push(acc, d) & 63 == d as bv32
  {
  }

  lemma SecondChar(acc: bv32, p: bv8, d: bv8)
    requires p < 64 && d < 64 && acc & 63 == p as bv32
    ensures Byte(Down(Push(acc, d), 4)) == (p << 2) | (d >> 4) && Push(acc, d) & 15 == (d & 15) as bv32
  {
    hide Down;
    Shifts(Push(acc, d));
  }

  lemma ThirdChar(acc: bv32, p: bv8, d: bv8)
    requires d < 64 && acc & 15 == (p & 15) as bv32
    ensures Byte(Down(Push(acc, d), 2)) == ((p & 15) << 4) | (d >> 2) && Push(acc, d) & 3 == (d & 3) as bv32
  {
    hide Down;
    Shifts(Push(acc, d));
  }

  lemma FourthChar(acc: bv32, p: bv8, d: bv8)
    requires d < 64 && acc & 3 == (p & 3) as bv32
    ensures Byte(Down(Push(acc, d), 0)) == ((p & 3) << 6) | d
  {
    hide Down;
    Shifts(Push(acc, d));
  }

  lemma TripleOf(q: nat, r: nat)
    requires r < 3
    ensures (3 * q + r) / 3 == q && (3 * q + r) % 3 == r
  {
  }

  lemma BytesOfGroup(v: seq<bv8>, q: nat)
    ensures 4 * q + 1 < |v| ==>
              (3 * q < DecodedLength(|v|) && DecodedByte(v, 3 * q) == (v[4 * q] << 2) | (v[4 * q + 1] >> 4))
    ensures 4 * q + 2 < |v| ==>
      (3 * q + 1 < DecodedLength(|v|) && DecodedByte(v, 3 * q + 1) == ((v[4 * q + 1] & 15) << 4) | (v[4 * q + 2] >> 2))
    ensures 4 * q + 3 < |v| ==>
      (3 * q + 2 < DecodedLength(|v|) && DecodedByte(v, 3 * q + 2) == ((v[4 * q + 2] & 3) << 6) | v[4 * q + 3])
  {
    TripleOf(q, 0);
    TripleOf(q, 1);
    TripleOf(q, 2);
  }

  /** Bytes finished after q groups and r characters. */
  function BytesDone(q: nat, r: nat): nat {
    3 * q + (if r == 0 then 0 else r - 1)
  }

  lemma BytesDoneIs(q: nat, r: nat)
    requires r < 4
    ensures DecodedLength(4 * q + r) == BytesDone(q, r)
  {
  }

  lemma BufferedStep(v: seq<bv8>, q: nat, r: nat, acc: bv32)
    requires r < 3 && 4 * q + r < |v| && Buffered(v, q, r, acc)
    requires v[4 * q + r] < 64 && (r > 0 ==> v[4 * q + r - 1] < 64)
    ensures Buffered(v, q, r + 1, Push(acc, v[4 * q + r]))
  {
    hide Push, Byte, Down;
    if r == 0 {
      FirstChar(acc, v[4 * q]);
    } else if r == 1 {
      SecondChar(acc, v[4 * q], v[4 * q + 1]);
    } else {
      ThirdChar(acc, v[4 * q + 1], v[4 * q + 2]);
    }
  }

  /** Every character but the first of a group completes a byte. */
  lemma ByteStep(v: seq<bv8>, q: nat, r: nat, acc: bv32)
    requires 1 <= r < 4 && 4 * q + r < |v| && Buffered(v, q, r, acc)
    requires v[4 * q + r] < 64 && v[4 * q + r - 1] < 64
    ensures BytesDone(q, r) < DecodedLength(|v|)
    ensures Byte(Down(Push(acc, v[4 * q + r]), 6 - 2 * r)) == DecodedByte(v, BytesDone(q, r))
  {
    hide Push, Byte, Down, DecodedByte, DecodedLength;
    BytesOfGroup(v, q);
    if r == 1 {
      SecondChar(acc, v[4 * q], v[4 * q + 1]);
    } else if r == 2 {
      ThirdChar(acc, v[4 * q + 1], v[4 * q + 2]);
    } else {
      FourthChar(acc, v[4 * q + 2], v[4 * q + 3]);
    }
  }

  /** The bytes written and the position of the first character that is not Base64. */
  datatype Parsed = Parsed(len: nat, next: nat)

  /** The characters of a C string from `pos` on that are taken for Base64, as values. */
  function Run(t: Text, pos: nat, signed: bool): (v: seq<bv8>)
    requires pos <= |t|
    ensures |v| == RunLength(t, pos, signed)
    ensures forall k | 0 <= k < |v| :: v[k] < 64
  {
    var n := RunLength(t, pos, signed);
    ValuesSmall(t[pos..pos + n], signed);
    Values(t[pos..pos + n], signed)
  }

  lemma ValuesSmall(t: Text, signed: bool)
    requires forall k | 0 <= k < |t| :: ValueOf(t[k], signed) != 0xFF
    ensures forall k | 0 <= k < |t| :: Values(t, signed)[k] < 64
  {
    forall k | 0 <= k < |t|
      ensures Values(t, signed)[k] < 64
    {
      LetterBijection(0, t[k]);
    }
  }

  /** The character at `pos`, the terminating zero included. */
  function CharOrZero(t: Text, pos: nat): bv8 {
    if pos < |t| then t[pos] else 0
  }

  method ReadValue(t: Text, pos: nat, signed: bool) returns (d: bv8)
    requires pos <= |t|
    ensures d == ValueOf(CharOrZero(t, pos), signed)
  {
    CharToByteIsValue(CharOrZero(t, pos), signed);
    d := (CharToByte(Promote(CharOrZero(t, pos), signed)) & 0xFF) as bv8;
  }

  /** `((unsigned)1 << acc_len) - 1`. */
  function LowBits(accLen: nat): bv32
    requires accLen < 8
  {
    Up(1, accLen) - 1
  }

  lemma LowBitsAre()
    ensures LowBits(0) == 0 && LowBits(2) == 3 && LowBits(4) == 15
  {
    Shifts(1);
  }

  /** `acc_len > 4 || (acc & ((1 << acc_len) - 1)) != 0`. */
  predicate Unclean(acc: bv32, accLen: nat)
    requires accLen < 8
  {
    accLen > 4 || acc & LowBits(accLen) != 0
  }

  lemma TailIsClean(v: seq<bv8>, q: nat, r: nat, acc: bv32)
    requires r < 4 && |v| == 4 * q + r && Buffered(v, q, r, acc) && forall k | 0 <= k < |v| :: v[k] < 64
    ensures Unclean(acc, Leftover(r)) <==> !CleanTail(v)
  {
    hide LowBits;
    LowBitsAre();
    GroupPosition(q, r);
  }

  /** from_base64: what it accepts, where it stops and what it writes. */
  method FromBase64(dst: array<bv8>, dstLen: nat, src: Text, pos: nat, signed: bool) returns (res: Option<Parsed>)
    requires pos <= |src| && dstLen <= dst.Length
    modifies dst
    ensures var v := Run(src, pos, signed);
      && (res.Some? <==> CleanTail(v) && DecodedLength(|v|) <= dstLen)
      && (res.Some? ==> res.value == Parsed(DecodedLength(|v|), pos + |v|))
      && (res.Some? ==> dst[..] == Decoded(v) + old(dst[DecodedLength(|v|)..]))
  {
    hide DecodedByte, Buffered, Unclean, CleanTail, Run;
    ghost var v := Run(src, pos, signed);
    ghost var q, r := 0, 0;
    var acc: bv32, accLen, len, next := 0, 0, 0, pos;
    var d := ReadValue(src, next, signed);
    NothingBuffered(v, 0, acc);
    while d != 0xFF
      invariant r < 4 && next == pos + 4 * q + r <= pos + |v| && d == ValueOf(CharOrZero(src, next), signed)
      invariant Buffered(v, q, r, acc) && accLen == Leftover(r)
      invariant len == BytesDone(q, r) <= dstLen && len <= DecodedLength(|v|)
      invariant dst[..len] == Decoded(v)[..len] && Kept(dst, len)
      decreases |src| - next
    {
      RunAt(src, pos, signed, 4 * q + r);
      var fits;
      fits, acc, accLen, len := TakeChar(dst, dstLen, v, q, r, acc, accLen, len, d);
      if !fits {
        return None;
      }
      next, q, r := next + 1, if r < 3 then q else q + 1, if r < 3 then r + 1 else 0;
      d := ReadValue(src, next, signed);
    }
    RunEnd(src, pos, signed, 4 * q + r);
    TailIsClean(v, q, r, acc);
    BytesDoneIs(q, r);
    if Unclean(acc, accLen) {
      return None;
    }
    assert dst[..] == dst[..len] + dst[len..] == Decoded(v) + old(dst[len..]);
    return Some(Parsed(len, next));
  }

  /** Shifting one character in and, when eight bits are there, storing a byte if the buffer has room. */
  method TakeChar(dst: array<bv8>, dstLen: nat, ghost v: seq<bv8>, ghost q: nat, ghost r: nat,
    acc: bv32, accLen: nat, len: nat, d: bv8) returns (fits: bool, acc': bv32, accLen': nat, len': nat)
    requires r < 4 && 4 * q + r < |v| && d == v[4 * q + r] && forall k | 0 <= k < |v| :: v[k] < 64
    requires Buffered(v, q, r, acc) && accLen == Leftover(r)
    requires len == BytesDone(q, r) <= dstLen <= dst.Length
    requires len <= DecodedLength(|v|) && dst[..len] == Decoded(v)[..len]
    modifies dst
    ensures !fits ==> DecodedLength(|v|) > dstLen
    ensures fits ==> accLen' == Leftover(if r < 3 then r + 1 else 0)
    ensures fits ==> Buffered(v, if r < 3 then q else q + 1, if r < 3 then r + 1 else 0, acc')
    ensures fits ==> len' == BytesDone(if r < 3 then q else q + 1, if r < 3 then r + 1 else 0) <= dstLen
    ensures fits ==> len <= len' <= DecodedLength(|v|) && dst[..len'] == Decoded(v)[..len']
    ensures fits ==> Kept(dst, len')
  {
    hide Push, Byte, Down, DecodedByte, Buffered;
    acc', accLen', len' := Push(acc, d), accLen + 6, len;
    if r < 3 {
      BufferedStep(v, q, r, acc);
    } else {
      NothingBuffered(v, q + 1, acc');
    }
    if accLen' >= 8 {
      accLen' := accLen' - 8;
      ByteStep(v, q, r, acc);
      if len >= dstLen {
        return false, acc', accLen', len';
      }
      dst[len] := Byte(Down(acc', accLen'));
      len' := len + 1;
      assert Decoded(v)[..len'] == Decoded(v)[..len] + [Decoded(v)[len]];
    }
    fits := true;
  }

  lemma NothingBuffered(v: seq<bv8>, q: nat, acc: bv32)
    requires 4 * q <= |v|
    ensures Buffered(v, q, 0, acc)
  {
  }

  lemma RunAt(t: Text, pos: nat, signed: bool, n: nat)
    requires pos <= |t| && n <= |Run(t, pos, signed)|
    requires ValueOf(CharOrZero(t, pos + n), signed) != 0xFF
    ensures n < |Run(t, pos, signed)| && Run(t, pos, signed)[n] == ValueOf(t[pos + n], signed)
  {
  }

  lemma RunEnd(t: Text, pos: nat, signed: bool, n: nat)
    requires pos <= |t| && n <= |Run(t, pos, signed)|
    requires ValueOf(CharOrZero(t, pos + n), signed) == 0xFF
    ensures n == |Run(t, pos, signed)|
  {
  }

  // ---- the two directions are inverse to each other ----

  function Sextets(b: seq<bv8>): (v: seq<bv8>)
    ensures |v| == EncodedLength(|b|)
  {
    seq(EncodedLength(|b|), k requires 0 <= k => Sextet(b, k))
  }

  /** Section 4 of RFC 4648: three bytes, and the four groups of six bits they are cut into, are the same 24 bits. */
  lemma GroupIsTheSameBits(b: seq<bv8>, q: nat)
    ensures Wide(ByteAt(b, 3 * q), 16) | Wide(ByteAt(b, 3 * q + 1), 8) | Wide(ByteAt(b, 3 * q + 2), 0)
         == Wide(Sextet(b, 4 * q), 18) | Wide(Sextet(b, 4 * q + 1), 12) | Wide(Sextet(b, 4 * q + 2), 6)
            | Wide(Sextet(b, 4 * q + 3), 0)
  {
    hide ByteAt, Sextet;
    SextetsOfGroup(b, q);
    SameBits(ByteAt(b, 3 * q), ByteAt(b, 3 * q + 1), ByteAt(b, 3 * q + 2));
  }

  function Wide(x: bv8, n: nat): bv24
    requires n < 24
  {
    (x as bv24) << n
  }

  lemma SameBits(x: bv8, y: bv8, z: bv8)
    ensures Wide(x, 16) | Wide(y, 8) | Wide(z, 0)
         == Wide(x >> 2, 18) | Wide(((x & 3) << 4) | (y >> 4), 12) | Wide(((y & 15) << 2) | (z >> 6), 6)
            | Wide(z & 63, 0)
  {
  }

  lemma BytesRebuilt(x: bv8, y: bv8, z: bv8)
    ensures ((x >> 2) << 2) | ((((x & 3) << 4) | (y >> 4)) >> 4) == x
    ensures (((((x & 3) << 4) | (y >> 4)) & 15) << 4) | ((((y & 15) << 2) | (z >> 6)) >> 2) == y
    ensures (((((y & 15) << 2) | (z >> 6)) & 3) << 6) | (z & 63) == z
  {
  }

  lemma LengthsInverse(n: nat)
    ensures DecodedLength(EncodedLength(n)) == n
    ensures EncodedLength(n) % 4 != 1
    ensures EncodedLength(n) % 4 == 2 ==> n == n / 3 * 3 + 1 && EncodedLength(n) == n / 3 * 4 + 2
    ensures EncodedLength(n) % 4 == 3 ==> n == n / 3 * 3 + 2 && EncodedLength(n) == n / 3 * 4 + 3
  {
  }

  lemma ByteRebuilt(b: seq<bv8>, q: nat, r: nat)
    requires r < 3 && 3 * q + r < |b| == DecodedLength(|Sextets(b)|)
    ensures DecodedByte(Sextets(b), 3 * q + r) == b[3 * q + r]
  {
    hide Sextet, DecodedByte;
    var v := Sextets(b);
    assert 4 * q + r + 1 < |v|;
    BytesOfGroup(v, q);
    SextetsOfGroup(b, q);
    BytesRebuilt(ByteAt(b, 3 * q), ByteAt(b, 3 * q + 1), ByteAt(b, 3 * q + 2));
  }

  lemma TailBits(x: bv8)
    ensures (((x & 3) << 4) | 0) & 15 == 0 && (((x & 15) << 2) | 0) & 3 == 0
    ensures (0 as bv8) >> 4 == 0 && (0 as bv8) >> 6 == 0
  {
  }

  lemma SextetsClean(b: seq<bv8>)
    ensures CleanTail(Sextets(b)) && Decoded(Sextets(b)) == b
  {
    hide Sextet, DecodedByte;
    LengthsInverse(|b|);
    var v, q := Sextets(b), |b| / 3;
    SextetsOfGroup(b, q);
    TailBits(ByteAt(b, 3 * q));
    TailBits(ByteAt(b, 3 * q + 1));
    forall j | 0 <= j < |b|
      ensures DecodedByte(v, j) == b[j]
    {
      ByteRebuilt(b, j / 3, j % 3);
    }
  }

  /** The text continues with something that is not Base64, or ends. */
  predicate Stops(rest: Text, signed: bool) {
    rest == [] || ValueOf(rest[0], signed) == 0xFF
  }

  lemma RunIs(t: Text, pos: nat, n: nat, signed: bool)
    requires pos + n <= |t| && forall k | pos <= k < pos + n :: ValueOf(t[k], signed) != 0xFF
    requires pos + n < |t| ==> ValueOf(t[pos + n], signed) == 0xFF
    ensures RunLength(t, pos, signed) == n
  {
  }

  lemma LetterValue(b: seq<bv8>, k: nat, signed: bool)
    ensures ValueOf(CharAt(b, k), signed) == Sextet(b, k) < 64
  {
    hide Letter, Unletter;
    LetterBijection(Sextet(b, k), 0);
  }

  /**
   * Round trip: reading the encoding of `b` back, wherever it stands in a string, yields `b` and stops
   * right behind it.
   */
  lemma DecodeOfEncode(pre: Text, b: seq<bv8>, rest: Text, signed: bool)
    requires Stops(rest, signed)
    ensures var t := pre + Encode(b) + rest;
      Run(t, |pre|, signed) == Sextets(b) && CleanTail(Sextets(b)) && Decoded(Sextets(b)) == b
  {
    hide CharAt, Sextet, Stops;
    var t, n := pre + Encode(b) + rest, EncodedLength(|b|);
    forall k | 0 <= k < n
      ensures t[|pre| + k] == CharAt(b, k) && ValueOf(t[|pre| + k], signed) == Sextet(b, k) && Sextet(b, k) != 0xFF
    {
      assert t[|pre| + k] == Encode(b)[k];
      LetterValue(b, k, signed);
    }
    assert |pre| + n < |t| ==> ValueOf(t[|pre| + n], signed) == 0xFF by {
      FirstOfRest(pre + Encode(b), rest, signed);
    }
    RunIs(t, |pre|, n, signed);
    assert Run(t, |pre|, signed) == Sextets(b);
    SextetsClean(b);
  }

  lemma FirstOfRest(front: Text, rest: Text, signed: bool)
    requires Stops(rest, signed)
    ensures rest != [] ==> ValueOf((front + rest)[|front|], signed) == 0xFF
  {
  }

  lemma SextetsRebuilt(a: bv8, b: bv8, c: bv8, d: bv8)
    requires a < 64 && b < 64 && c < 64 && d < 64
    ensures ((a << 2) | (b >> 4)) >> 2 == a
    ensures ((((a << 2) | (b >> 4)) & 3) << 4) | ((((b & 15) << 4) | (c >> 2)) >> 4) == b
    ensures (((((b & 15) << 4) | (c >> 2)) & 15) << 2) | ((((c & 3) << 6) | d) >> 6) == c
    ensures (((c & 3) << 6) | d) & 63 == d
    ensures b & 15 == 0 ==> ((((a << 2) | (b >> 4)) & 3) << 4) | ((0 as bv8) >> 4) == b
    ensures c & 3 == 0 ==> (((((b & 15) << 4) | (c >> 2)) & 15) << 2) | ((0 as bv8) >> 6) == c
  {
  }

  lemma FullGroup(v: seq<bv8>, q: nat, r: nat)
    requires r < 4 && 4 * q + 4 <= |v| && v[4 * q] < 64 && v[4 * q + 1] < 64 && v[4 * q + 2] < 64 && v[4 * q + 3] < 64
    ensures Sextet(Decoded(v), 4 * q + r) == v[4 * q + r]
  {
    hide Sextet, DecodedByte;
    SextetsOfGroup(Decoded(v), q);
    BytesOfGroup(v, q);
    SextetsRebuilt(v[4 * q], v[4 * q + 1], v[4 * q + 2], v[4 * q + 3]);
  }

  lemma ThreeLeft(v: seq<bv8>, q: nat, r: nat)
    requires r < 3 && |v| == 4 * q + 3 && v[4 * q] < 64 && v[4 * q + 1] < 64 && v[4 * q + 2] < 64
    requires v[4 * q + 2] & 3 == 0
    ensures Sextet(Decoded(v), 4 * q + r) == v[4 * q + r]
  {
    hide Sextet, DecodedByte, DecodedLength;
    BytesDoneIs(q, 3);
    SextetsOfGroup(Decoded(v), q);
    BytesOfGroup(v, q);
    SextetsRebuilt(v[4 * q], v[4 * q + 1], v[4 * q + 2], 0);
  }

  lemma TwoLeft(v: seq<bv8>, q: nat, r: nat)
    requires r < 2 && |v| == 4 * q + 2 && v[4 * q] < 64 && v[4 * q + 1] < 64 && v[4 * q + 1] & 15 == 0
    ensures Sextet(Decoded(v), 4 * q + r) == v[4 * q + r]
  {
    hide Sextet, DecodedByte, DecodedLength;
    BytesDoneIs(q, 2);
    SextetsOfGroup(Decoded(v), q);
    BytesOfGroup(v, q);
    SextetsRebuilt(v[4 * q], v[4 * q + 1], 0, 0);
  }

  lemma TailOf(v: seq<bv8>, q: nat)
    requires CleanTail(v) && 4 * q < |v| < 4 * q + 4
    ensures |v| == 4 * q + 2 || |v| == 4 * q + 3
    ensures |v| == 4 * q + 2 ==> v[4 * q + 1] & 15 == 0
    ensures |v| == 4 * q + 3 ==> v[4 * q + 2] & 3 == 0
  {
  }

  /** The bytes decoded from clean six-bit values have exactly those values as their groups of six bits. */
  lemma SextetOfDecoded(v: seq<bv8>, q: nat, r: nat)
    requires CleanTail(v) && r < 4 && 4 * q + r < |v| && forall k | 0 <= k < |v| :: v[k] < 64
    ensures Sextet(Decoded(v), 4 * q + r) == v[4 * q + r]
  {
    hide Sextet, DecodedByte, CleanTail, Decoded;
    if |v| >= 4 * q + 4 {
      FullGroup(v, q, r);
    } else {
      TailOf(v, q);
      if |v| == 4 * q + 3 {
        ThreeLeft(v, q, r);
      } else {
        TwoLeft(v, q, r);
      }
    }
  }

  lemma EncodingOfDecoded(v: seq<bv8>, k: nat)
    requires CleanTail(v) && k < |v| && forall j | 0 <= j < |v| :: v[j] < 64
    ensures |Encode(Decoded(v))| == |v| && Encode(Decoded(v))[k] == Letter(v[k])
  {
    hide Sextet, Decoded, Letter, CleanTail;
    LengthsBack(v);
    SextetOfDecoded(v, k / 4, k % 4);
  }

  lemma LengthsBack(v: seq<bv8>)
    requires CleanTail(v)
    ensures EncodedLength(DecodedLength(|v|)) == |v|
  {
  }

  /** Only a byte above 127 in a signed `char` is read as something other than itself. */
  lemma LetterOfValue(c: bv8, signed: bool)
    requires ValueOf(c, signed) != 0xFF
    ensures Letter(ValueOf(c, signed)) == c <==> !(signed && c >= 0x80)
  {
    LetterBijection(63, c);
  }

  predicate SevenBit(t: Text) {
    forall k | 0 <= k < |t| :: t[k] < 0x80
  }

  /**
   * The converse: a text that from_base64 accepts is the encoding of the bytes it returns exactly when
   * `char` is unsigned or the text holds no byte above 127.
   */
  lemma EncodeOfDecode(t: Text, signed: bool)
    requires (forall k | 0 <= k < |t| :: ValueOf(t[k], signed) != 0xFF) && CleanTail(Values(t, signed))
    ensures Encode(Decoded(Values(t, signed))) == t <==> !signed || SevenBit(t)
  {
    hide Letter, ValueOf, Decoded, Encode, CleanTail;
    var v := Values(t, signed);
    var e := Encode(Decoded(v));
    ValuesSmall(t, signed);
    LengthsBack(v);
    forall k | 0 <= k < |t|
      ensures e[k] == t[k] <==> !(signed && t[k] >= 0x80)
    {
      EncodingOfDecoded(v, k);
      LetterOfValue(t[k], signed);
    }
  }

  /** With signed `char` four bytes 0x80 are accepted as if they were "////". */
  lemma HighBytesAccepted()
    ensures var t: Text := [0x80, 0x80, 0x80, 0x80];
      && (forall k | 0 <= k < |t| :: ValueOf(t[k], true) != 0xFF) && CleanTail(Values(t, true))
      && Encode(Decoded(Values(t, true))) != t
  {
    var t: Text := [0x80, 0x80, 0x80, 0x80];
    assert t[0] == 0x80;
    EncodeOfDecode(t, true);
  }
}
