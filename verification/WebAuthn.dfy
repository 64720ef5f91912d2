/** The DER and raw forms of an ECDSA signature over P-256 in WebAuthn.kt. */
module WebAuthn {
  import opened Options
  import opened Words
  import opened LittleEndian

  const COORD: nat := 32
  const P256_ORDER: nat := 0xFFFFFFFF00000000FFFFFFFFFFFFFFFFBCE6FAADA7179E84F3B9CAC2FC632551

  // ---- big-endian numbers ----

  function Big(s: Bytes): (v: nat) {
    if s == [] then 0 else 256 * Big(s[..|s| - 1]) + s[|s| - 1]
  }

  /** The low `n` bytes of `v`, most significant first. */
  function ToBig(v: nat, n: nat): (s: Bytes)
    ensures |s| == n
    decreases v + n, n
  {
    if n == 0 then [] else ToBig(v / 256, n - 1) + [LowByte(v)]
  }

  lemma {:induction false} BigBound(s: Bytes)
    ensures Big(s) < Span(|s|)
  {
    if s != [] {
      BigBound(s[..|s| - 1]);
    }
  }

  lemma {:induction false} ToBigBig(s: Bytes)
    ensures ToBig(Big(s), |s|) == s
  {
    if s != [] {
      ToBigBig(s[..|s| - 1]);
      SplitByte(s[|s| - 1], Big(s[..|s| - 1]));
    }
  }

  lemma {:induction false} BigToBig(v: nat, n: nat)
    requires v < Span(n)
    ensures Big(ToBig(v, n)) == v
    decreases n
  {
    if n > 0 {
      BigToBig(v / 256, n - 1);
      assert ToBig(v, n)[..n - 1] == ToBig(v / 256, n - 1);
    }
  }

  lemma {:induction false} BigConcat(a: Bytes, b: Bytes)
    ensures Big(a + b) == Big(a) * Span(|b|) + Big(b)
    decreases |b|
  {
    if b == [] {
      assert a + b == a;
    } else {
      var init := b[..|b| - 1];
      BigConcat(a, init);
      assert (a + b)[..|a + b| - 1] == a + init;
      ScaleStep(Big(a), Span(|init|), Big(init), b[|b| - 1]);
    }
  }

  lemma ScaleStep(a: nat, p: nat, b: nat, c: nat)
    ensures 256 * (a * p + b) + c == a * (256 * p) + (256 * b + c)
  {
  }

  lemma {:induction false} BigZeros(n: nat)
    ensures Big(Zeros(n)) == 0
  {
    if n > 0 {
      BigZeros(n - 1);
      assert Zeros(n)[..n - 1] == Zeros(n - 1);
    }
  }

  // ---- fixSize ----

  function FixSize(b: Bytes, size: nat): (r: Bytes)
    ensures |r| == size
  {
    if |b| == size then b
    else if |b| > size then b[|b| - size..]
    else Zeros(size - |b|) + b
  }

  /** Trimming or padding keeps the number modulo 256^size. */
  lemma FixSizeValue(b: Bytes, size: nat)
    ensures Big(FixSize(b, size)) == Big(b) % Span(size)
    ensures Big(b) < Span(size) ==> Big(FixSize(b, size)) == Big(b)
  {
    hide Big, Span, Zeros;
    BigBound(FixSize(b, size));
    if |b| > size {
      var front, tail := b[..|b| - size], b[|b| - size..];
      BigConcat(front, tail);
      assert b == front + tail;
      DivModUnique(Big(tail), Big(front), Span(size));
    } else if |b| < size {
      BigConcat(Zeros(size - |b|), b);
      BigZeros(size - |b|);
    }
    if Big(b) < Span(size) {
      DivModUnique(Big(b), 0, Span(size));
    }
  }

  method FixSizeCopy(bytes: Bytes, size: nat) returns (r: Bytes)
    ensures r == FixSize(bytes, size)
  {
    if |bytes| == size {
      return bytes;
    }
    var out := new Byte[size];
    var from, to := if |bytes| > size then |bytes| - size else 0, if |bytes| > size then 0 else size - |bytes|;
    for i := 0 to size
      invariant forall k | 0 <= k < i :: out[k] == if k < to then 0 else bytes[from + k - to]
    {
      out[i] := if i < to then 0 else bytes[from + i - to];
    }
    r := out[..];
    assert r == FixSize(bytes, size);
  }

  // ---- DER integers (section 8.3 of X.690) ----

  /** The contents of a shortest-form positive INTEGER. */
  predicate ShortestPositive(c: Bytes) {
    && c != [] && c[0] < 0x80
    && (|c| > 1 && c[0] == 0 ==> c[1] >= 0x80)
    && Big(c) > 0
  }

  function LeadingZeros(v: Bytes): (n: nat)
    ensures n <= |v| && (forall k | 0 <= k < n :: v[k] == 0) && (n < |v| ==> v[n] != 0)
  {
    if v != [] && v[0] == 0 then 1 + LeadingZeros(v[1..]) else 0
  }

  /** The contents derInt writes for a non-zero number. */
  function Contents(v: Bytes): (c: Bytes) {
    var body := v[LeadingZeros(v)..];
    if body != [] && body[0] >= 0x80 then [0] + body else body
  }

  lemma BigDropsZeros(v: Bytes, n: nat)
    requires n <= |v| && forall k | 0 <= k < n :: v[k] == 0
    ensures Big(v[n..]) == Big(v)
  {
    assert v == v[..n] + v[n..];
    BigConcat(v[..n], v[n..]);
    assert v[..n] == Zeros(n);
    BigZeros(n);
  }

  /** A number whose first byte is not zero is at least 256 to the power of the remaining length. */
  lemma FirstByteWeight(b: Bytes)
    requires b != [] && b[0] != 0
    ensures Big(b) >= Span(|b| - 1)
  {
    assert b == [b[0]] + b[1..];
    BigConcat([b[0]], b[1..]);
    assert [b[0]][..0] == [] && Big([b[0]]) == b[0] as int;
    MulMonotone(1, b[0], Span(|b| - 1));
  }

  lemma ContentsShortest(v: Bytes)
    requires Big(v) > 0
    ensures ShortestPositive(Contents(v)) && Big(Contents(v)) == Big(v)
    ensures |Contents(v)| <= |v| + 1
  {
    var n := LeadingZeros(v);
    var body := v[n..];
    BigDropsZeros(v, n);
    if body != [] && body[0] >= 0x80 {
      BigConcat([0], body);
      assert [0 as Byte][..0] == [];
    }
  }

  lemma {:induction false} SpanGrows(m: nat, n: nat)
    requires m <= n
    ensures Span(m) <= Span(n)
    decreases n
  {
    if m < n {
      SpanGrows(m, n - 1);
    }
  }

  /** A shortest-form integer of k bytes is below half of 256^k. */
  lemma HalfBound(c: Bytes)
    requires c != [] && c[0] < 0x80
    ensures 2 * Big(c) < Span(|c|)
  {
    assert c == [c[0]] + c[1..];
    BigConcat([c[0]], c[1..]);
    assert [c[0]][..0] == [] && Big([c[0]]) == c[0] as int;
    BigBound(c[1..]);
    MulMonotone(c[0], 127, Span(|c| - 1));
  }

  /** A longer shortest-form integer needs its first byte, or the sign byte before it. */
  lemma NeedsItsLength(d: Bytes, k: nat)
    requires ShortestPositive(d) && k < |d|
    ensures 2 * Big(d) >= Span(k)
  {
    if d[0] != 0 {
      FirstByteWeight(d);
      SpanGrows(k, |d| - 1);
    } else {
      var e := d[1..];
      assert d[..1] == [0] && e[0] == d[1];
      BigDropsZeros(d, 1);
      assert e == [e[0]] + e[1..];
      BigConcat([e[0]], e[1..]);
      assert [e[0]][..0] == [] && Big([e[0]]) == e[0] as int;
      MulMonotone(128, e[0], Span(|e| - 1));
      SpanGrows(k, |e|);
    }
  }

  /** There is only one shortest form of a positive number. */
  lemma ShortestUnique(c: Bytes, d: Bytes)
    requires ShortestPositive(c) && ShortestPositive(d) && Big(c) == Big(d)
    ensures c == d
  {
    if |c| < |d| {
      HalfBound(c);
      NeedsItsLength(d, |c|);
    } else if |d| < |c| {
      HalfBound(d);
      NeedsItsLength(c, |d|);
    }
    ToBigBig(c);
    ToBigBig(d);
  }

  /** What derInt returns; a number that is zero throughout makes it throw. */
  function DerInt(v: Bytes): Option<Bytes> {
    var c := Contents(v);
    if c == [] then None else Some([0x02, LowByte(|c|)] + c)
  }

  method WriteDerInt(v: Bytes) returns (r: Option<Bytes>)
    ensures r == DerInt(v)
  {
    var start := 0;
    while start < |v| && v[start] == 0
      invariant start <= |v| && LeadingZeros(v) == start + LeadingZeros(v[start..])
    {
      assert v[start..][1..] == v[start + 1..];
      start := start + 1;
    }
    assert LeadingZeros(v) == start;
    var body := v[start..];
    if body == [] {
      return None;
    }
    if body[0] >= 0x80 {
      r := Some([0x02, LowByte(|body| + 1), 0] + body);
      assert [0x02, LowByte(|body| + 1), 0] + body == [0x02, LowByte(|[0] + body|)] + ([0] + body);
    } else {
      r := Some([0x02, LowByte(|body|)] + body);
    }
  }

  /** rawToDer. */
  function RawToDer(raw: Bytes): Option<Bytes> {
    if |raw| < 2 * COORD then None
    else
      var r, s := DerInt(FixSize(raw[..COORD], COORD)), DerInt(FixSize(raw[COORD..2 * COORD], COORD));
      if r.None? || s.None? then None
      else Some([0x30, LowByte(|r.value + s.value|)] + (r.value + s.value))
  }

  // ---- normalizeLowS ----

  /** Bytes of BigInteger.toByteArray: the shortest two's complement form. */
  function Width(m: int): (k: nat)
    ensures k >= 1
    decreases if m < 0 then -m else m
  {
    if -128 <= m < 128 then 1 else 1 + Width(m / 256)
  }

  function ToByteArray(m: int): (b: Bytes)
    ensures |b| == Width(m)
  {
    ToBig(m % Span(Width(m)), Width(m))
  }

  lemma {:induction false} WidthSuffices(m: nat)
    ensures m < Span(Width(m))
    decreases m
  {
    if m >= 128 {
      WidthSuffices(m / 256);
      assert m < 256 * (m / 256 + 1);
    } else {
      assert Span(1) == 256 * Span(0);
    }
  }

  lemma ToByteArrayValue(m: nat)
    ensures Big(ToByteArray(m)) == m
  {
    WidthSuffices(m);
    DivModUnique(m, 0, Span(Width(m)));
    BigToBig(m, Width(m));
  }

  function NormalizeLowS(s: Bytes): Bytes {
    if Big(s) > P256_ORDER / 2 then FixSize(ToByteArray(P256_ORDER - Big(s)), COORD) else s
  }

  /** The smaller of s and n - s. */
  function Low(s: nat): nat
    requires s < P256_ORDER
  {
    if P256_ORDER - s < s then P256_ORDER - s else s
  }

  lemma OrderFits()
    ensures P256_ORDER < Span(COORD)
  {
    assert Span(8) == TWO_64 by { SpanOfWords(); }
    SpanDouble(8, TWO_64);
    SpanDouble(16, TWO_64 * TWO_64);
  }

  lemma {:induction false} SpanAdd(m: nat, n: nat)
    ensures Span(m) * Span(n) == Span(m + n)
  {
    if m > 0 {
      SpanAdd(m - 1, n);
      assert Span(m + n) == 256 * Span(m - 1 + n);
      assert Span(m) * Span(n) == 256 * (Span(m - 1) * Span(n));
    }
  }

  lemma SpanDouble(n: nat, v: nat)
    requires Span(n) == v
    ensures Span(n + n) == v * v
  {
    SpanAdd(n, n);
  }

  /** Thirty-two bytes are determined by their number. */
  lemma FixedIs(b: Bytes, v: nat)
    requires Big(b) == v < Span(COORD)
    ensures FixSize(b, COORD) == ToBig(v, COORD)
  {
    FixSizeValue(b, COORD);
    ToBigBig(FixSize(b, COORD));
  }

  lemma NormalizedIs(s: nat)
    requires s < P256_ORDER
    ensures NormalizeLowS(ToBig(s, COORD)) == ToBig(Low(s), COORD)
  {
    hide Big, ToBig, ToByteArray, Span, FixSize;
    OrderFits();
    BigToBig(s, COORD);
    if s > P256_ORDER / 2 {
      ToByteArrayValue(P256_ORDER - s);
      FixedIs(ToByteArray(P256_ORDER - s), P256_ORDER - s);
    }
  }

  // ---- derToRaw ----

  datatype Signature = Signature(r: Bytes, s: Bytes)

  /** The two integers of a DER signature, or nothing where the code throws; the outer length is not looked at. */
  function Parse(der: Bytes): Option<Signature> {
    if |der| < 4 || der[0] != 0x30 || der[2] != 0x02 then None
    else
      var i: int := 4 + der[3] as int;
      if |der| < i + 2 || der[i] != 0x02 then None
      else
        var j := i + 2;
        if |der| < j + der[i + 1] then None
        else Some(Signature(der[4..i], der[j..j + der[i + 1]]))
  }

  function DerToRaw(der: Bytes): Option<Bytes> {
    var p := Parse(der);
    if p.None? then None else Some(FixSize(p.value.r, COORD) + NormalizeLowS(FixSize(p.value.s, COORD)))
  }

  /** The running index of the Kotlin function; leaving the array, or a wrong tag, is an exception. */
  method ConvertDerToRaw(der: Bytes) returns (raw: Option<Bytes>)
    ensures raw == DerToRaw(der)
  {
    hide NormalizeLowS;
    var i := 0;
    if i >= |der| || der[i] != 0x30 {
      return None;
    }
    i := i + 2;
    if i >= |der| || der[i] != 0x02 {
      return None;
    }
    i := i + 1;
    if i >= |der| {
      return None;
    }
    var rLen := der[i];
    i := i + 1;
    if i + rLen > |der| {
      return None;
    }
    var r := der[i..i + rLen];
    i := i + rLen;
    if i >= |der| || der[i] != 0x02 {
      return None;
    }
    i := i + 1;
    if i >= |der| {
      return None;
    }
    var sLen := der[i];
    i := i + 1;
    if i + sLen > |der| {
      return None;
    }
    var s := der[i..i + sLen];
    var rFixed := FixSizeCopy(r, COORD);
    var sFixed := FixSizeCopy(s, COORD);
    return Some(rFixed + NormalizeLowS(sFixed));
  }

  // ---- transcoding ----

  /** A SEQUENCE of two INTEGERs with the given contents, whatever length it claims and whatever follows. */
  function Sequence(len: Byte, r: Bytes, s: Bytes, rest: Bytes): Bytes
    requires |r| < 256 && |s| < 256
  {
    [0x30, len, 0x02, LowByte(|r|)] + r + [0x02, LowByte(|s|)] + s + rest
  }

  lemma ParseSequence(len: Byte, r: Bytes, s: Bytes, rest: Bytes)
    requires |r| < 256 && |s| < 256
    ensures Parse(Sequence(len, r, s, rest)) == Some(Signature(r, s))
  {
    var der, i := Sequence(len, r, s, rest), 4 + |r|;
    assert der[3] == |r| && der[4..i] == r;
    assert der[i] == 0x02 && der[i + 1] == |s|;
    assert der[i + 2..i + 2 + |s|] == s;
  }

  lemma ParsedIsSequence(der: Bytes)
    requires Parse(der).Some?
    ensures var p := Parse(der).value;
      var j := 6 + |p.r| + |p.s|;
      && |p.r| < 256 && |p.s| < 256 && j <= |der| && der == Sequence(der[1], p.r, p.s, der[j..])
  {
    var p := Parse(der).value;
    var i := 4 + |p.r|;
    assert der == der[..4] + der[4..i] + der[i..i + 2] + der[i + 2..i + 2 + |p.s|] + der[i + 2 + |p.s|..];
    assert der[..4] == [0x30, der[1], 0x02, der[3]] && der[i..i + 2] == [0x02, der[i + 1]];
  }

  /** Without an exception derToRaw converts exactly the sequences of two integers, and keeps r modulo 2^256. */
  lemma ConvertedExactlyWhen(der: Bytes)
    ensures DerToRaw(der).Some? <==>
      exists len, r: Bytes, s: Bytes, rest :: |r| < 256 && |s| < 256 && der == Sequence(len, r, s, rest)
    ensures DerToRaw(der).Some? ==>
      |DerToRaw(der).value| >= COORD && Big(DerToRaw(der).value[..COORD]) == Big(Parse(der).value.r) % Span(COORD)
  {
    hide NormalizeLowS, Big, Span;
    if DerToRaw(der).Some? {
      ParsedIsSequence(der);
      FixSizeValue(Parse(der).value.r, COORD);
      assert DerToRaw(der).value[..COORD] == FixSize(Parse(der).value.r, COORD);
    }
    forall len, r: Bytes, s: Bytes, rest | |r| < 256 && |s| < 256 && der == Sequence(len, r, s, rest)
      ensures DerToRaw(der).Some?
    {
      ParseSequence(len, r, s, rest);
    }
  }

  /** rawToDer throws exactly when there are fewer than 64 bytes or one of the two numbers is zero. */
  lemma EncodedExactlyWhen(raw: Bytes)
    ensures RawToDer(raw).Some? <==> |raw| >= 64 && Big(raw[..32]) > 0 && Big(raw[32..64]) > 0
  {
    if |raw| >= 64 {
      DerIntExactlyWhen(raw[..32]);
      DerIntExactlyWhen(raw[32..64]);
    }
  }

  lemma DerIntExactlyWhen(v: Bytes)
    ensures DerInt(v).Some? <==> Big(v) > 0
  {
    var n := LeadingZeros(v);
    BigDropsZeros(v, n);
    if n < |v| {
      FirstByteWeight(v[n..]);
    } else {
      assert v[n..] == [];
    }
  }

  predicate InRange(v: nat) {
    1 <= v < P256_ORDER
  }

  function Raw(r: nat, s: nat): (raw: Bytes)
    ensures |raw| == 2 * COORD
  {
    ToBig(r, COORD) + ToBig(s, COORD)
  }

  /** Any DER form of (r, s), however its integers are padded, becomes the 64 bytes of (r, min(s, n - s)). */
  lemma DerToRawIs(len: Byte, r: Bytes, s: Bytes, rest: Bytes)
    requires |r| < 256 && |s| < 256 && InRange(Big(r)) && InRange(Big(s))
    ensures DerToRaw(Sequence(len, r, s, rest)) == Some(Raw(Big(r), Low(Big(s))))
  {
    hide NormalizeLowS, FixSize;
    ParseSequence(len, r, s, rest);
    OrderFits();
    FixedIs(r, Big(r));
    FixedIs(s, Big(s));
    NormalizedIs(Big(s));
  }

  function ShortContents(v: nat): Bytes {
    Contents(ToBig(v, COORD))
  }

  lemma ShortContentsIs(v: nat)
    requires InRange(v)
    ensures ShortestPositive(ShortContents(v)) && Big(ShortContents(v)) == v && |ShortContents(v)| <= COORD + 1
  {
    OrderFits();
    BigToBig(v, COORD);
    ContentsShortest(ToBig(v, COORD));
  }

  /** The minimal DER encoding of (r, s). */
  function MinimalDer(r: nat, s: nat): Bytes
    requires InRange(r) && InRange(s)
  {
    ShortContentsIs(r);
    ShortContentsIs(s);
    Sequence(LowByte(4 + |ShortContents(r)| + |ShortContents(s)|), ShortContents(r), ShortContents(s), [])
  }

  /** Its length field is its length, in the one-byte form. */
  lemma MinimalDerLength(r: nat, s: nat)
    requires InRange(r) && InRange(s)
    ensures var d := MinimalDer(r, s); |d| <= 72 && d[1] < 0x80 && d[1] == |d| - 2
  {
    hide Contents, ToBig, Big;
    ShortContentsIs(r);
    ShortContentsIs(s);
  }

  lemma RawToDerIs(r: nat, s: nat)
    requires InRange(r) && InRange(s)
    ensures RawToDer(Raw(r, s)) == Some(MinimalDer(r, s))
  {
    hide Contents, ToBig;
    ShortContentsIs(r);
    ShortContentsIs(s);
    var raw, cr, cs := Raw(r, s), ShortContents(r), ShortContents(s);
    assert raw[..COORD] == ToBig(r, COORD) && raw[COORD..2 * COORD] == ToBig(s, COORD);
    var body := [0x02, LowByte(|cr|)] + cr + ([0x02, LowByte(|cs|)] + cs);
    assert RawToDer(raw) == Some([0x30, LowByte(|body|)] + body);
    assert [0x30, LowByte(|body|)] + body == MinimalDer(r, s);
  }

  lemma LowInRange(s: nat)
    requires InRange(s)
    ensures InRange(Low(s)) && Low(Low(s)) == Low(s)
    ensures Low(s) == s <==> s <= P256_ORDER / 2
  {
  }

  function Transcode(der: Bytes): Option<Bytes> {
    var raw := DerToRaw(der);
    if raw.None? then None else RawToDer(raw.value)
  }

  /** Through the raw form and back, any DER form of (r, s) becomes the minimal one of (r, min(s, n - s)). */
  lemma TranscodeIsMinimal(len: Byte, r: Bytes, s: Bytes, rest: Bytes)
    requires |r| < 256 && |s| < 256 && InRange(Big(r)) && InRange(Big(s))
    ensures InRange(Low(Big(s)))
    ensures Transcode(Sequence(len, r, s, rest)) == Some(MinimalDer(Big(r), Low(Big(s))))
  {
    hide DerToRaw, RawToDer, Sequence, MinimalDer, Raw, Big, Low;
    DerToRawIs(len, r, s, rest);
    LowInRange(Big(s));
    RawToDerIs(Big(r), Low(Big(s)));
  }

  /** Doing it twice changes nothing. */
  lemma TranscodeIdempotent(len: Byte, r: Bytes, s: Bytes, rest: Bytes)
    requires |r| < 256 && |s| < 256 && InRange(Big(r)) && InRange(Big(s))
    ensures var once := Transcode(Sequence(len, r, s, rest)); once.Some? && Transcode(once.value) == once
  {
    hide Transcode, Sequence, Big, Low, Contents, ToBig;
    TranscodeIsMinimal(len, r, s, rest);
    var low := Low(Big(s));
    LowInRange(Big(s));
    ShortContentsIs(Big(r));
    ShortContentsIs(low);
    var total := LowByte(4 + |ShortContents(Big(r))| + |ShortContents(low)|);
    TranscodeIsMinimal(total, ShortContents(Big(r)), ShortContents(low), []);
  }

  /** The raw form survives the way through DER exactly when its s is low. */
  lemma RawRoundTrip(r: nat, s: nat)
    requires InRange(r) && InRange(s)
    ensures RawToDer(Raw(r, s)).Some?
    ensures DerToRaw(RawToDer(Raw(r, s)).value) == Some(Raw(r, s)) <==> s <= P256_ORDER / 2
  {
    hide DerToRaw, RawToDer, Sequence, Contents, ToBig, Low;
    RawToDerIs(r, s);
    ShortContentsIs(r);
    ShortContentsIs(s);
    DerToRawIs(LowByte(4 + |ShortContents(r)| + |ShortContents(s)|), ShortContents(r), ShortContents(s), []);
    LowInRange(s);
    RawInjective(r, Low(s), s);
  }

  lemma RawInjective(r: nat, s: nat, s': nat)
    requires s < P256_ORDER && s' < P256_ORDER
    ensures Raw(r, s) == Raw(r, s') <==> s == s'
  {
    hide ToBig;
    OrderFits();
    BigToBig(s, COORD);
    BigToBig(s', COORD);
    assert Raw(r, s)[COORD..] == ToBig(s, COORD) && Raw(r, s')[COORD..] == ToBig(s', COORD);
  }
}
