/** The context of a hash string and encode_string of encoding.c, which prints it. */
module HashString {
  import opened Words
  import opened Base64
  import Decimal
  import LE = LittleEndian
  import opened Geometry
  import opened Context

  const MAX_FIELD: int := 0xFFFF_FFFF

  type Octets = s: seq<bv8> | |s| < TWO_32

  /** The context fields the hash string carries, and those it is validated with. */
  datatype Ctx = Ctx(
    version: Word32, mCost: Word32, tCost: Word32, lanes: Word32, threads: Word32,
    salt: Octets, out: Octets, pwd: Buffer, secret: Buffer, ad: Buffer)

  /** What depends on the platform: ULONG_MAX, and whether `char` is signed. */
  datatype Platform = Platform(ulongMax: nat, signedChar: bool)

  predicate ValidPlatform(e: Platform) {
    e.ulongMax >= MAX_FIELD
  }

  function WidenByte(b: bv8): (w: Byte) {
    b as int
  }

  function Widen(s: seq<bv8>): (r: LE.Bytes)
    ensures |r| == |s|
  {
    seq(|s|, k requires 0 <= k < |s| => WidenByte(s[k]))
  }

  function InputOf(c: Ctx): Input {
    Input(true, |c.out|, c.pwd, Ptr(Widen(c.salt)), c.secret, c.ad,
      c.tCost, c.mCost, c.lanes, c.threads, c.version, false, false)
  }

  // ---- the text ----

  const DOLLAR: Text := [0x24]
  const V_FIELD: Text := [0x24, 0x76, 0x3D]
  const M_FIELD: Text := [0x24, 0x6D, 0x3D]
  const T_FIELD: Text := [0x2C, 0x74, 0x3D]
  const P_FIELD: Text := [0x2C, 0x70, 0x3D]
  const ARGON2: Text := [0x61, 0x72, 0x67, 0x6F, 0x6E, 0x32]

  /** "argon2d", "argon2i" or "argon2id". */
  function TypeName(kind: Type): (t: Text)
    ensures 7 <= |t| <= 8
  {
    match kind
    case Argon2d => ARGON2 + [0x64]
    case Argon2i => ARGON2 + [0x69]
    case Argon2id => ARGON2 + [0x69, 0x64]
  }

  /** What one SS, SX or SB step of encode_string appends. */
  datatype Piece = Chars(text: Text) | Decimals(number: Word32) | Binary(bytes: Octets)

  function TextOf(p: Piece): Text {
    match p
    case Chars(t) => t
    case Decimals(n) => Decimal.Print(n)
    case Binary(b) => Encode(b)
  }

  /** The fourteen steps, in order. */
  function Steps(c: Ctx, kind: Type): (p: seq<Piece>)
    ensures |p| == 14
  {
    [Chars(DOLLAR), Chars(TypeName(kind)), Chars(V_FIELD), Decimals(c.version), Chars(M_FIELD), Decimals(c.mCost),
     Chars(T_FIELD), Decimals(c.tCost), Chars(P_FIELD), Decimals(c.lanes),
     Chars(DOLLAR), Binary(c.salt), Chars(DOLLAR), Binary(c.out)]
  }

  lemma StepsAre(c: Ctx, kind: Type)
    ensures var p := Steps(c, kind);
      && p[0] == p[10] == p[12] == Chars(DOLLAR) && p[1] == Chars(TypeName(kind))
      && p[2] == Chars(V_FIELD) && p[3] == Decimals(c.version) && p[4] == Chars(M_FIELD) && p[5] == Decimals(c.mCost)
      && p[6] == Chars(T_FIELD) && p[7] == Decimals(c.tCost) && p[8] == Chars(P_FIELD) && p[9] == Decimals(c.lanes)
      && p[11] == Binary(c.salt) && p[13] == Binary(c.out)
  {
  }

  function Join(p: seq<Piece>): (t: Text) {
    if p == [] then [] else TextOf(p[0]) + Join(p[1..])
  }

  function HashText(c: Ctx, kind: Type): (t: Text) {
    Join(Steps(c, kind))
  }

  lemma {:induction false} JoinSplit(p: seq<Piece>, n: nat)
    requires n <= |p|
    ensures Join(p) == Join(p[..n]) + Join(p[n..])
    decreases n
  {
    hide TextOf;
    if n == 0 {
      assert p[..0] == [] && p[0..] == p;
    } else {
      JoinSplit(p[1..], n - 1);
      assert p[..n][1..] == p[1..][..n - 1] && p[1..][n - 1..] == p[n..];
    }
  }

  /** Where the n-th piece begins. */
  function Pos(p: seq<Piece>, n: nat): nat
    requires n <= |p|
  {
    |Join(p[..n])|
  }

  lemma PieceAt(p: seq<Piece>, n: nat)
    requires n < |p|
    ensures Join(p) == Join(p[..n]) + TextOf(p[n]) + Join(p[n + 1..])
    ensures Pos(p, n + 1) == Pos(p, n) + |TextOf(p[n])| <= |Join(p)|
    ensures Join(p[..n + 1]) == Join(p[..n]) + TextOf(p[n])
  {
    hide TextOf;
    JoinSplit(p, n);
    JoinSplit(p, n + 1);
    JoinSplit(p[..n + 1], n);
    assert p[..n + 1][..n] == p[..n];
    var last := p[..n + 1][n..];
    assert last == [p[n]] && last[1..] == [];
    assert Join(last) == TextOf(p[n]) + Join(last[1..]) == TextOf(p[n]);
    assert p[n..][1..] == p[n + 1..];
  }

  /** The text, literally: $argon2id$v=19$m=65536,t=3,p=4$<salt>$<digest> for a context with these numbers. */
  lemma HashTextIs(c: Ctx, kind: Type)
    ensures HashText(c, kind) ==
      Ascii(match kind case Argon2d => "$argon2d$v=" case Argon2i => "$argon2i$v=" case Argon2id => "$argon2id$v=")
      + Decimal.Print(c.version) + Ascii("$m=") + Decimal.Print(c.mCost) + Ascii(",t=") + Decimal.Print(c.tCost)
      + Ascii(",p=") + Decimal.Print(c.lanes) + Ascii("$") + Encode(c.salt) + Ascii("$") + Encode(c.out)
  {
    hide HashText, Encode, Decimal.Print, TypeName, Ascii;
    JoinOfSteps(c, kind);
    LiteralTexts(kind);
  }

  lemma LiteralTexts(kind: Type)
    ensures DOLLAR + TypeName(kind) + V_FIELD ==
      Ascii(match kind case Argon2d => "$argon2d$v=" case Argon2i => "$argon2i$v=" case Argon2id => "$argon2id$v=")
    ensures DOLLAR == Ascii("$") && M_FIELD == Ascii("$m=") && T_FIELD == Ascii(",t=") && P_FIELD == Ascii(",p=")
  {
    AsciiCodes();
  }

  lemma AsciiCodes()
    ensures AsciiCode('$') == 0x24 && AsciiCode('v') == 0x76 && AsciiCode('=') == 0x3D && AsciiCode('m') == 0x6D
    ensures AsciiCode(',') == 0x2C && AsciiCode('t') == 0x74 && AsciiCode('p') == 0x70 && AsciiCode('a') == 0x61
    ensures AsciiCode('r') == 0x72 && AsciiCode('g') == 0x67 && AsciiCode('o') == 0x6F && AsciiCode('n') == 0x6E
    ensures AsciiCode('2') == 0x32 && AsciiCode('d') == 0x64 && AsciiCode('i') == 0x69
  {
  }

  lemma JoinNext(p: seq<Piece>, n: nat)
    requires n < |p|
    ensures Join(p[..n + 1]) == Join(p[..n]) + TextOf(p[n])
  {
    PieceAt(p, n);
  }

  lemma JoinOfNumbers(c: Ctx, kind: Type)
    ensures Join(Steps(c, kind)[..7]) == DOLLAR + TypeName(kind) + V_FIELD + Decimal.Print(c.version)
      + M_FIELD + Decimal.Print(c.mCost) + T_FIELD
  {
    hide Encode, Decimal.Print, Join, TypeName, Steps;
    var p := Steps(c, kind);
    StepsAre(c, kind);
    JoinEnds(p);
    JoinNext(p, 0);
    assert [] + DOLLAR == DOLLAR;
    JoinNext(p, 1);
    JoinNext(p, 2);
    JoinNext(p, 3);
    JoinNext(p, 4);
    JoinNext(p, 5);
    JoinNext(p, 6);
  }

  lemma JoinOfSteps(c: Ctx, kind: Type)
    ensures HashText(c, kind) == DOLLAR + TypeName(kind) + V_FIELD + Decimal.Print(c.version)
      + M_FIELD + Decimal.Print(c.mCost) + T_FIELD + Decimal.Print(c.tCost) + P_FIELD + Decimal.Print(c.lanes)
      + DOLLAR + Encode(c.salt) + DOLLAR + Encode(c.out)
  {
    hide Encode, Decimal.Print, Join, TypeName, Steps;
    var p := Steps(c, kind);
    StepsAre(c, kind);
    JoinOfNumbers(c, kind);
    JoinNext(p, 7);
    JoinNext(p, 8);
    JoinNext(p, 9);
    JoinNext(p, 10);
    JoinNext(p, 11);
    JoinNext(p, 12);
    JoinNext(p, 13);
    assert p[..14] == p;
  }

  // ---- encode_string ----

  /** One SS or SX step: fails when the string and its terminator do not fit. */
  method PutString(dst: array<bv8>, at: nat, room: nat, str: Text) returns (ok: bool)
    requires at + room <= dst.Length
    modifies dst
    ensures ok <==> |str| < room
    ensures dst[..at] == old(dst[..at])
    ensures ok ==> dst[at..at + |str|] == str && dst[at + |str|] == 0 && Kept(dst, at + |str| + 1)
    ensures !ok ==> dst[..] == old(dst[..])
  {
    if |str| >= room {
      return false;
    }
    for j := 0 to |str|
      invariant dst[..at] == old(dst[..at]) && dst[at..at + j] == str[..j] && Kept(dst, at + j)
    {
      dst[at + j] := str[j];
      assert dst[at..at + j + 1] == dst[at..at + j] + [str[j]];
    }
    dst[at + |str|] := 0;
    return true;
  }

  /** One SS, SX or SB step. */
  method PutPiece(dst: array<bv8>, at: nat, room: nat, p: Piece) returns (ok: bool)
    requires at + room <= dst.Length
    modifies dst
    ensures ok <==> |TextOf(p)| < room
    ensures dst[..at] == old(dst[..at])
    ensures ok ==> dst[at..at + |TextOf(p)|] == TextOf(p) && dst[at + |TextOf(p)|] == 0
    ensures ok ==> Kept(dst, at + |TextOf(p)| + 1)
  {
    hide Encode, Decimal.Print;
    match p
    case Chars(t) => ok := PutString(dst, at, room, t);
    case Decimals(n) =>
      var tmp := Decimal.Print(n);
      ok := PutString(dst, at, room, tmp);
    case Binary(b) =>
      var r := ToBase64(dst, at, room, b);
      ok := r >= 0;
      assert !ok ==> dst[..at] == dst[..][..at];
  }

  /** encode_string: the whole text and its terminator exactly when the buffer has room for both. */
  method EncodeString(dst: array<bv8>, dstLen: nat, c: Ctx, kind: Type) returns (code: Code)
    requires dstLen <= dst.Length
    modifies dst
    ensures code == if ValidateInputs(InputOf(c)) != Ok then ValidateInputs(InputOf(c))
                    else if dstLen > |HashText(c, kind)| then Ok else EncodingFail
    ensures code == Ok ==> dst[..|HashText(c, kind)|] == HashText(c, kind) && dst[|HashText(c, kind)|] == 0
    ensures code == Ok ==> Kept(dst, |HashText(c, kind)| + 1)
  {
    hide TextOf, Join, Steps, ValidateInputs;
    code := ValidateInputs(InputOf(c));
    if code != Ok {
      return;
    }
    var steps, at := Steps(c, kind), 0;
    JoinEnds(steps);
    for n := 0 to |steps|
      invariant at == Pos(steps, n) < dstLen || (n == 0 && at == 0)
      invariant at <= dstLen && dst[..at] == Join(steps[..n]) && Kept(dst, at + 1)
      invariant n > 0 ==> dst[at] == 0
    {
      PieceAt(steps, n);
      var ok := PutPiece(dst, at, dstLen - at, steps[n]);
      if !ok {
        return EncodingFail;
      }
      ghost var len := |TextOf(steps[n])|;
      assert dst[..at + len] == dst[..at] + dst[at..at + len];
      at := at + |TextOf(steps[n])|;
    }
    assert steps[..|steps|] == steps;
  }

  lemma JoinEnds(p: seq<Piece>)
    ensures p[..0] == [] && Join([]) == []
  {
  }
}
