/** decode_string of encoding.c, and that it undoes encode_string. */
module DecodeString {
  import opened Words
  import opened Base64
  import opened Decimal
  import opened Geometry
  import opened Context
  import opened HashString

  datatype Outcome<T> = Good(value: T) | Bad(code: Code)
  {
    predicate IsFailure() {
      Bad?
    }

    function PropagateFailure<U>(): Outcome<U>
      requires Bad?
    {
      Outcome<U>.Bad(code)
    }

    function Extract(): T
      requires Good?
    {
      value
    }
  }

  /** A value read and the position behind it. */
  datatype Field<T> = Field(value: T, next: nat)

  // ---- the macros CC, CC_opt, DECIMAL_U32 and BIN ----

  predicate HasPrefix(src: Text, pos: nat, prefix: Text) {
    pos + |prefix| <= |src| && src[pos..pos + |prefix|] == prefix
  }

  function Expect(src: Text, pos: nat, prefix: Text): (r: Outcome<nat>)
    ensures r.Good? ==> r.value <= |src|
    ensures r.Bad? ==> r.code == DecodingFail
  {
    if HasPrefix(src, pos, prefix) then Good(pos + |prefix|) else Bad(DecodingFail)
  }

  function DecimalU32(src: Text, pos: nat, e: Platform): (r: Outcome<Field<Word32>>)
    requires pos <= |src|
    ensures r.Good? ==> r.value.next <= |src|
    ensures r.Bad? ==> r.code == DecodingFail
  {
    var d := DigitsAt(src, pos);
    if NoLeadingZero(d) && Number(d) <= e.ulongMax && Number(d) <= MAX_FIELD then Good(Field(Number(d), pos + |d|))
    else Bad(DecodingFail)
  }

  function BinaryField(src: Text, pos: nat, room: Word32, e: Platform): (r: Outcome<Field<Octets>>)
    requires pos <= |src|
    ensures r.Good? ==> r.value.next <= |src|
    ensures r.Bad? ==> r.code == DecodingFail
  {
    var v := Run(src, pos, e.signedChar);
    if CleanTail(v) && DecodedLength(|v|) <= room then Good(Field(Decoded(v), pos + |v|)) else Bad(DecodingFail)
  }

  function VersionField(src: Text, pos: nat, e: Platform): (r: Outcome<Field<Word32>>)
    requires pos <= |src|
    ensures r.Good? ==> r.value.next <= |src|
    ensures r.Bad? ==> r.code == DecodingFail
  {
    if HasPrefix(src, pos, V_FIELD) then DecimalU32(src, pos + |V_FIELD|, e) else Good(Field(0x10, pos))
  }

  /** The numbers of the text, and where the salt begins. */
  datatype Parameters = Parameters(version: Word32, mCost: Word32, tCost: Word32, lanes: Word32, next: nat)

  function DecodingOfNumbers(src: Text, kind: Type, e: Platform): (r: Outcome<Parameters>)
    ensures r.Good? ==> r.value.next <= |src|
    ensures r.Bad? ==> r.code == DecodingFail
  {
    var pos :- Expect(src, 0, DOLLAR);
    var pos :- Expect(src, pos, TypeName(kind));
    var version :- VersionField(src, pos, e);
    var pos :- Expect(src, version.next, M_FIELD);
    var mCost :- DecimalU32(src, pos, e);
    var pos :- Expect(src, mCost.next, T_FIELD);
    var tCost :- DecimalU32(src, pos, e);
    var pos :- Expect(src, tCost.next, P_FIELD);
    var lanes :- DecimalU32(src, pos, e);
    var pos :- Expect(src, lanes.next, DOLLAR);
    Good(Parameters(version.value, mCost.value, tCost.value, lanes.value, pos))
  }

  /** The context decode_string builds from the text, or the code it returns. */
  function Decoding(src: Text, kind: Type, saltRoom: Word32, outRoom: Word32, pwd: Buffer, e: Platform): Outcome<Ctx> {
    var p :- DecodingOfNumbers(src, kind, e);
    var salt :- BinaryField(src, p.next, saltRoom, e);
    var pos :- Expect(src, salt.next, DOLLAR);
    var out :- BinaryField(src, pos, outRoom, e);
    var c := Ctx(p.version, p.mCost, p.tCost, p.lanes, p.lanes, salt.value, out.value, pwd, Null(0), Null(0));
    if ValidateInputs(InputOf(c)) != Ok then Bad(ValidateInputs(InputOf(c)))
    else if out.next == |src| then Good(c)
    else Bad(DecodingFail)
  }

  /** A refusal is not reported as success. */
  lemma RefusalIsNotOk(src: Text, kind: Type, saltRoom: Word32, outRoom: Word32, pwd: Buffer, e: Platform)
    ensures Decoding(src, kind, saltRoom, outRoom, pwd, e) != Bad(Ok)
    ensures Decoding(src, kind, saltRoom, outRoom, pwd, e) != Bad(VerifyMismatch)
  {
    hide ValidateInputs, InputOf, DecodingOfNumbers, BinaryField, Expect;
    forall c: Ctx
      ensures ValidateInputs(InputOf(c)) != VerifyMismatch
    {
      ValidationCodes(InputOf(c));
    }
  }

  method ReadDecimal(src: Text, pos: nat, e: Platform) returns (r: Outcome<Field<Word32>>)
    requires pos <= |src|
    ensures r == DecimalU32(src, pos, e)
  {
    var n := DecodeDecimal(src, pos, e.ulongMax);
    if n.None? || n.value.value > MAX_FIELD {
      return Bad(DecodingFail);
    }
    return Good(Field(n.value.value, n.value.next));
  }

  method ReadBinary(buf: array<bv8>, src: Text, pos: nat, e: Platform) returns (r: Outcome<Field<Octets>>)
    requires pos <= |src| && buf.Length < TWO_32
    modifies buf
    ensures r == BinaryField(src, pos, buf.Length, e)
  {
    var n := FromBase64(buf, buf.Length, src, pos, e.signedChar);
    if n.None? {
      return Bad(DecodingFail);
    }
    assert buf[..n.value.len] == buf[..][..n.value.len];
    return Good(Field(buf[..n.value.len], n.value.next));
  }

  /** The part of decode_string up to the salt. */
  method DecodeNumbers(src: Text, kind: Type, e: Platform) returns (r: Outcome<Parameters>)
    ensures r == DecodingOfNumbers(src, kind, e)
  {
    hide DecimalU32, TypeName;
    var pos :- Expect(src, 0, DOLLAR);
    pos :- Expect(src, pos, TypeName(kind));
    var version: Field<Word32> := Field(0x10, pos);
    if HasPrefix(src, pos, V_FIELD) {
      version :- ReadDecimal(src, pos + |V_FIELD|, e);
    }
    pos :- Expect(src, version.next, M_FIELD);
    var mCost :- ReadDecimal(src, pos, e);
    pos :- Expect(src, mCost.next, T_FIELD);
    var tCost :- ReadDecimal(src, pos, e);
    pos :- Expect(src, tCost.next, P_FIELD);
    var lanes :- ReadDecimal(src, pos, e);
    pos :- Expect(src, lanes.next, DOLLAR);
    return Good(Parameters(version.value, mCost.value, tCost.value, lanes.value, pos));
  }

  /** decode_string with output buffers for the salt and the digest. */
  method DecodeString(src: Text, kind: Type, saltBuf: array<bv8>, outBuf: array<bv8>, pwd: Buffer, e: Platform)
    returns (r: Outcome<Ctx>)
    requires saltBuf.Length < TWO_32 && outBuf.Length < TWO_32
    modifies saltBuf, outBuf
    ensures r == Decoding(src, kind, saltBuf.Length, outBuf.Length, pwd, e)
  {
    hide BinaryField, DecodingOfNumbers, ValidateInputs;
    var p :- DecodeNumbers(src, kind, e);
    var salt :- ReadBinary(saltBuf, src, p.next, e);
    var pos :- Expect(src, salt.next, DOLLAR);
    var out :- ReadBinary(outBuf, src, pos, e);
    var c := Ctx(p.version, p.mCost, p.tCost, p.lanes, p.lanes, salt.value, out.value, pwd, Null(0), Null(0));
    var code := ValidateInputs(InputOf(c));
    if code != Ok {
      return Bad(code);
    }
    if out.next == |src| {
      return Good(c);
    }
    return Bad(DecodingFail);
  }

  // ---- reading back what encode_string wrote ----

  /** At the n-th step's place, the text starts with that step's text. */
  lemma ExpectAt(p: seq<Piece>, n: nat, t: Text)
    requires n < |p| && p[n] == Chars(t)
    ensures Expect(Join(p), Pos(p, n), t) == Good(Pos(p, n + 1))
    ensures HasPrefix(Join(p), Pos(p, n), t) && Pos(p, n + 1) == Pos(p, n) + |t|
  {
    hide Join, HasPrefix;
    PieceAt(p, n);
    PrefixInside(Join(p[..n]), t, Join(p[n + 1..]));
  }

  lemma PrefixInside(a: Text, t: Text, b: Text)
    ensures HasPrefix(a + t + b, |a|, t)
  {
    assert (a + t + b)[|a|..|a| + |t|] == t;
  }

  lemma JoinStarts(p: seq<Piece>, t: Text)
    requires p != [] && p[0] == Chars(t) && t != []
    ensures Join(p) != [] && Join(p)[0] == t[0]
  {
  }

  lemma DecimalAt(p: seq<Piece>, n: nat, v: Word32, t: Text, e: Platform)
    requires ValidPlatform(e) && n + 1 < |p| && p[n] == Decimals(v)
    requires p[n + 1] == Chars(t) && t != [] && !IsDigit(t[0])
    ensures Pos(p, n) <= |Join(p)| && DecimalU32(Join(p), Pos(p, n), e) == Good(Field(v, Pos(p, n + 1)))
  {
    hide Join, Number, Print, DigitRun, IsDigit, DigitsAt;
    PieceAt(p, n);
    assert p[n + 1..][0] == p[n + 1];
    JoinStarts(p[n + 1..], t);
    DigitsOfPrint(Join(p[..n]), v, Join(p[n + 1..]));
    NumberOfPrint(v);
  }

  lemma StopsAfter(p: seq<Piece>, n: nat, e: Platform)
    requires n < |p| && (n + 1 == |p| || p[n + 1] == Chars(DOLLAR))
    ensures Stops(Join(p[n + 1..]), e.signedChar)
  {
    if n + 1 < |p| {
      assert p[n + 1..][0] == p[n + 1];
      JoinStarts(p[n + 1..], DOLLAR);
    }
  }

  lemma BinaryAt(p: seq<Piece>, n: nat, b: Octets, room: Word32, e: Platform)
    requires n < |p| && p[n] == Binary(b) && |b| <= room
    requires n + 1 == |p| || p[n + 1] == Chars(DOLLAR)
    ensures Pos(p, n) <= |Join(p)| && BinaryField(Join(p), Pos(p, n), room, e) == Good(Field(b, Pos(p, n + 1)))
  {
    hide Encode, Join, CleanTail, Decoded, Run, Stops;
    PieceAt(p, n);
    var rest := Join(p[n + 1..]);
    StopsAfter(p, n, e);
    DecodeOfEncode(Join(p[..n]), b, rest, e.signedChar);
    LengthsInverse(|b|);
  }

  /** What decoding keeps of a context: threads become lanes, secret and associated data are dropped. */
  function Reduced(c: Ctx, pwd: Buffer): Ctx {
    c.(threads := c.lanes, pwd := pwd, secret := Null(0), ad := Null(0))
  }

  /** The first twelve places of `at` are where the pieces up to the salt begin in `src`. */
  ghost predicate NumbersMarked(src: Text, kind: Type, e: Platform, c: Ctx, at: seq<nat>) {
    && |at| >= 12 && at[0] == 0 && (forall n | 0 <= n < 12 :: at[n] <= |src|)
    && Expect(src, at[0], DOLLAR) == Good(at[1])
    && Expect(src, at[1], TypeName(kind)) == Good(at[2])
    && VersionField(src, at[2], e) == Good(Field(c.version, at[4]))
    && Expect(src, at[4], M_FIELD) == Good(at[5])
    && DecimalU32(src, at[5], e) == Good(Field(c.mCost, at[6]))
    && Expect(src, at[6], T_FIELD) == Good(at[7])
    && DecimalU32(src, at[7], e) == Good(Field(c.tCost, at[8]))
    && Expect(src, at[8], P_FIELD) == Good(at[9])
    && DecimalU32(src, at[9], e) == Good(Field(c.lanes, at[10]))
    && Expect(src, at[10], DOLLAR) == Good(at[11])
  }

  /** The remaining places are those of the salt and the digest, and `src` ends with the last. */
  ghost predicate BinariesMarked(
    src: Text, saltRoom: Word32, outRoom: Word32, e: Platform, c: Ctx, at: seq<nat>)
  {
    && |at| == 15 && at[11] <= |src| && at[13] <= |src| && at[14] == |src|
    && BinaryField(src, at[11], saltRoom, e) == Good(Field(c.salt, at[12]))
    && Expect(src, at[12], DOLLAR) == Good(at[13])
    && BinaryField(src, at[13], outRoom, e) == Good(Field(c.out, at[14]))
  }

  /** `at` marks where in `src` each of the fourteen pieces of c's text begins. */
  ghost predicate Marks(
    src: Text, kind: Type, saltRoom: Word32, outRoom: Word32, e: Platform, c: Ctx, at: seq<nat>)
  {
    NumbersMarked(src, kind, e, c, at) && BinariesMarked(src, saltRoom, outRoom, e, c, at)
  }

  lemma DecodingOfMarked(
    src: Text, kind: Type, saltRoom: Word32, outRoom: Word32, pwd: Buffer, e: Platform, c: Ctx, at: seq<nat>)
    requires Marks(src, kind, saltRoom, outRoom, e, c, at)
    requires ValidateInputs(InputOf(Reduced(c, pwd))) == Ok
    ensures Decoding(src, kind, saltRoom, outRoom, pwd, e) == Good(Reduced(c, pwd))
  {
    hide Expect, VersionField, DecimalU32, BinaryField, TypeName, ValidateInputs, InputOf;
  }

  function Places(p: seq<Piece>): (at: seq<nat>)
    ensures |at| == |p| + 1
  {
    seq(|p| + 1, n requires 0 <= n <= |p| => Pos(p, n))
  }

  lemma PlacesWithin(p: seq<Piece>)
    ensures Places(p)[0] == 0 && Places(p)[|p|] == |Join(p)|
    ensures forall n | 0 <= n <= |p| :: Places(p)[n] == Pos(p, n) <= |Join(p)|
  {
    JoinEnds(p);
    assert p[..|p|] == p;
    forall n | 0 <= n <= |p|
      ensures Pos(p, n) <= |Join(p)|
    {
      JoinSplit(p, n);
    }
  }

  lemma HashTextMarked(c: Ctx, kind: Type, saltRoom: Word32, outRoom: Word32, e: Platform)
    requires ValidPlatform(e) && |c.salt| <= saltRoom && |c.out| <= outRoom
    ensures Marks(HashText(c, kind), kind, saltRoom, outRoom, e, c, Places(Steps(c, kind)))
  {
    hide Join, Expect, DecimalU32, BinaryField, TypeName, TextOf, HasPrefix, Pos, Steps;
    var p := Steps(c, kind);
    StepsAre(c, kind);
    PlacesWithin(p);
    ExpectAt(p, 0, DOLLAR);
    ExpectAt(p, 1, TypeName(kind));
    ExpectAt(p, 2, V_FIELD);
    DecimalAt(p, 3, c.version, M_FIELD, e);
    ExpectAt(p, 4, M_FIELD);
    DecimalAt(p, 5, c.mCost, T_FIELD, e);
    ExpectAt(p, 6, T_FIELD);
    DecimalAt(p, 7, c.tCost, P_FIELD, e);
    ExpectAt(p, 8, P_FIELD);
    DecimalAt(p, 9, c.lanes, DOLLAR, e);
    ExpectAt(p, 10, DOLLAR);
    BinaryAt(p, 11, c.salt, saltRoom, e);
    ExpectAt(p, 12, DOLLAR);
    BinaryAt(p, 13, c.out, outRoom, e);
  }

  /** Round trip: an encoded valid context decodes, under its own type, to the same parameters, salt and digest. */
  lemma DecodingOfHashText(c: Ctx, kind: Type, saltRoom: Word32, outRoom: Word32, pwd: Buffer, e: Platform)
    requires ValidPlatform(e) && ValidateInputs(InputOf(c)) == Ok && (pwd.Null? ==> pwd.Len() == 0)
    requires |c.salt| <= saltRoom && |c.out| <= outRoom
    ensures Decoding(HashText(c, kind), kind, saltRoom, outRoom, pwd, e) == Good(Reduced(c, pwd))
  {
    hide ValidateInputs, Marks, Decoding, HashText;
    HashTextMarked(c, kind, saltRoom, outRoom, e);
    AcceptedExactly(InputOf(c));
    AcceptedExactly(InputOf(Reduced(c, pwd)));
    DecodingOfMarked(HashText(c, kind), kind, saltRoom, outRoom, pwd, e, c, Places(Steps(c, kind)));
  }

  // ---- texts without a version ----

  /** What encoders of version 1.0 print: no version step. */
  function OldSteps(c: Ctx, kind: Type): (p: seq<Piece>)
    ensures |p| == 12
  {
    Steps(c, kind)[..2] + Steps(c, kind)[4..]
  }

  function OldPlaces(p: seq<Piece>): (at: seq<nat>)
    requires |p| == 12
    ensures |at| == 15
  {
    [Pos(p, 0), Pos(p, 1), Pos(p, 2), Pos(p, 2), Pos(p, 2), Pos(p, 3), Pos(p, 4), Pos(p, 5), Pos(p, 6), Pos(p, 7),
     Pos(p, 8), Pos(p, 9), Pos(p, 10), Pos(p, 11), Pos(p, 12)]
  }

  lemma NoVersion(src: Text, pos: nat, e: Platform)
    requires pos <= |src| && HasPrefix(src, pos, M_FIELD)
    ensures VersionField(src, pos, e) == Good(Field(0x10, pos))
  {
    assert src[pos..pos + 3][1] == 0x6D;
  }

  lemma OldStepsAre(c: Ctx, kind: Type)
    ensures var p := OldSteps(c, kind);
      && p[0] == p[8] == p[10] == Chars(DOLLAR) && p[1] == Chars(TypeName(kind))
      && p[2] == Chars(M_FIELD) && p[3] == Decimals(c.mCost) && p[4] == Chars(T_FIELD) && p[5] == Decimals(c.tCost)
      && p[6] == Chars(P_FIELD) && p[7] == Decimals(c.lanes) && p[9] == Binary(c.salt) && p[11] == Binary(c.out)
  {
    hide TypeName;
    StepsAre(c, kind);
  }

  lemma OldPlacesWithin(p: seq<Piece>)
    requires |p| == 12
    ensures OldPlaces(p)[0] == 0 && OldPlaces(p)[14] == |Join(p)|
    ensures forall n | 0 <= n < 15 :: OldPlaces(p)[n] <= |Join(p)|
  {
    hide Pos, Join;
    PlacesWithin(p);
    forall n | 0 <= n < 15
      ensures OldPlaces(p)[n] <= |Join(p)|
    {
      var k := if n <= 2 then n else if n <= 4 then 2 else n - 2;
      assert OldPlaces(p)[n] == Places(p)[k];
    }
    assert Places(p)[0] == Pos(p, 0) && Places(p)[12] == Pos(p, 12);
  }

  lemma OldNumbersMarked(c: Ctx, kind: Type, e: Platform)
    requires ValidPlatform(e)
    ensures var p := OldSteps(c, kind);
      NumbersMarked(Join(p), kind, e, c.(version := 0x10), OldPlaces(p))
  {
    hide OldSteps, Join, Expect, DecimalU32, VersionField, TypeName, TextOf, HasPrefix, Pos;
    var p := OldSteps(c, kind);
    OldStepsAre(c, kind);
    OldPlacesWithin(p);
    ExpectAt(p, 0, DOLLAR);
    ExpectAt(p, 1, TypeName(kind));
    ExpectAt(p, 2, M_FIELD);
    NoVersion(Join(p), Pos(p, 2), e);
    DecimalAt(p, 3, c.mCost, T_FIELD, e);
    ExpectAt(p, 4, T_FIELD);
    DecimalAt(p, 5, c.tCost, P_FIELD, e);
    ExpectAt(p, 6, P_FIELD);
    DecimalAt(p, 7, c.lanes, DOLLAR, e);
    ExpectAt(p, 8, DOLLAR);
  }

  lemma OldTextMarked(c: Ctx, kind: Type, saltRoom: Word32, outRoom: Word32, e: Platform)
    requires ValidPlatform(e) && |c.salt| <= saltRoom && |c.out| <= outRoom
    ensures var p := OldSteps(c, kind);
      Marks(Join(p), kind, saltRoom, outRoom, e, c.(version := 0x10), OldPlaces(p))
  {
    hide OldSteps, NumbersMarked, Join, Expect, BinaryField, TextOf, Pos;
    var p := OldSteps(c, kind);
    OldStepsAre(c, kind);
    OldPlacesWithin(p);
    OldNumbersMarked(c, kind, e);
    BinaryAt(p, 9, c.salt, saltRoom, e);
    ExpectAt(p, 10, DOLLAR);
    BinaryAt(p, 11, c.out, outRoom, e);
  }

  /** A text that does not state its version is read as one of version 0x10. */
  lemma DecodingOfOldText(c: Ctx, kind: Type, saltRoom: Word32, outRoom: Word32, pwd: Buffer, e: Platform)
    requires ValidPlatform(e) && ValidateInputs(InputOf(c)) == Ok && (pwd.Null? ==> pwd.Len() == 0)
    requires |c.salt| <= saltRoom && |c.out| <= outRoom
    ensures Decoding(Join(OldSteps(c, kind)), kind, saltRoom, outRoom, pwd, e)
         == Good(Reduced(c, pwd).(version := 0x10))
  {
    hide ValidateInputs, Marks, Decoding, Join, OldSteps;
    var before := c.(version := 0x10);
    OldTextMarked(c, kind, saltRoom, outRoom, e);
    AcceptedExactly(InputOf(c));
    AcceptedExactly(InputOf(Reduced(before, pwd)));
    var p := OldSteps(c, kind);
    DecodingOfMarked(Join(p), kind, saltRoom, outRoom, pwd, e, before, OldPlaces(p));
  }

  // ---- the type name ----

  lemma SecondPiece(c: Ctx, kind: Type)
    ensures HasPrefix(HashText(c, kind), 0, DOLLAR)
    ensures HasPrefix(HashText(c, kind), 1, TypeName(kind))
    ensures HasPrefix(HashText(c, kind), 1 + |TypeName(kind)|, V_FIELD)
  {
    hide Join, HasPrefix, TextOf, TypeName;
    var p := Steps(c, kind);
    PlacesWithin(p);
    ExpectAt(p, 0, DOLLAR);
    ExpectAt(p, 1, TypeName(kind));
    ExpectAt(p, 2, V_FIELD);
  }

  /** Where another type's name, or what must follow it, fails to match. */
  lemma OtherTypeMismatch(c: Ctx, kind: Type, other: Type)
    requires kind != other
    ensures var src := HashText(c, kind);
      || !HasPrefix(src, 1, TypeName(other))
      || (|TypeName(other)| == 7 && !HasPrefix(src, 8, V_FIELD) && !HasPrefix(src, 8, M_FIELD))
  {
    hide HashText, HasPrefix;
    var src := HashText(c, kind);
    SecondPiece(c, kind);
    PrefixChars(src, 1, TypeName(kind));
    PrefixChars(src, 1 + |TypeName(kind)|, V_FIELD);
    assert src[1 + 6] == TypeName(kind)[6];
    if kind == Argon2id && other == Argon2i {
      assert src[1 + 7] == TypeName(kind)[7] == 0x64;
      NotPrefix(src, 8, V_FIELD, 0);
      NotPrefix(src, 8, M_FIELD, 0);
    } else if kind == Argon2i && other == Argon2id {
      assert src[8 + 0] == V_FIELD[0];
      NotPrefix(src, 1, TypeName(other), 7);
    } else {
      NotPrefix(src, 1, TypeName(other), 6);
    }
  }

  /** The text of one type is refused under each other type, although "argon2i" begins "argon2id". */
  lemma OtherTypeRefused(c: Ctx, kind: Type, other: Type, saltRoom: Word32, outRoom: Word32, pwd: Buffer, e: Platform)
    requires kind != other
    ensures Decoding(HashText(c, kind), other, saltRoom, outRoom, pwd, e) == Bad(DecodingFail)
  {
    hide HashText, DecimalU32, BinaryField, ValidateInputs, HasPrefix, TypeName;
    SecondPiece(c, kind);
    OtherTypeMismatch(c, kind, other);
  }

  lemma NotPrefix(src: Text, pos: nat, t: Text, k: nat)
    requires k < |t| && pos + k < |src| && src[pos + k] != t[k]
    ensures !HasPrefix(src, pos, t)
  {
    if HasPrefix(src, pos, t) {
      PrefixChars(src, pos, t);
    }
  }

  lemma PrefixChars(src: Text, pos: nat, t: Text)
    requires HasPrefix(src, pos, t)
    ensures pos + |t| <= |src| && forall k | 0 <= k < |t| :: src[pos + k] == t[k]
  {
    forall k | 0 <= k < |t|
      ensures src[pos + k] == t[k]
    {
      assert src[pos..pos + |t|][k] == src[pos + k];
    }
  }

  // ---- encoding what was decoded ----

  /** The pieces, laid end to end at the given places, make up the whole text. */
  lemma {:induction false} JoinOfSlices(p: seq<Piece>, src: Text, at: seq<nat>)
    requires |at| == |p| + 1 && at[0] <= |src| && at[|p|] == |src|
    requires forall n | 0 <= n < |p| :: SliceAt(src, at, n, TextOf(p[n]))
    ensures Join(p) == src[at[0]..]
    decreases |p|
  {
    hide TextOf;
    if p != [] {
      assert SliceAt(src, at, 0, TextOf(p[0]));
      var rest := at[1..];
      forall n | 0 <= n < |p[1..]|
        ensures SliceAt(src, rest, n, TextOf(p[1..][n]))
      {
        assert SliceAt(src, at, n + 1, TextOf(p[n + 1]));
      }
      JoinOfSlices(p[1..], src, rest);
      assert src[at[0]..] == src[at[0]..at[1]] + src[at[1]..];
    }
  }

  predicate SliceAt(src: Text, at: seq<nat>, n: nat, t: Text) {
    n + 1 < |at| && at[n] + |t| == at[n + 1] <= |src| && src[at[n]..at[n + 1]] == t
  }

  lemma ExpectedSlice(src: Text, pos: nat, t: Text, next: nat)
    requires Expect(src, pos, t) == Good(next)
    ensures next == pos + |t| <= |src| && src[pos..next] == t
  {
  }

  lemma DecimalSlice(src: Text, pos: nat, e: Platform, v: Word32, next: nat)
    requires pos <= |src| && DecimalU32(src, pos, e) == Good(Field(v, next))
    ensures next == pos + |Print(v)| <= |src| && src[pos..next] == Print(v)
  {
    PrintOfNumber(DigitsAt(src, pos));
  }

  lemma BinarySlice(src: Text, pos: nat, room: Word32, e: Platform, b: Octets, next: nat)
    requires pos <= |src| && BinaryField(src, pos, room, e) == Good(Field(b, next))
    ensures pos <= next <= |src|
    ensures !e.signedChar || SevenBit(src) ==> next == pos + |Encode(b)| && src[pos..next] == Encode(b)
  {
    hide Encode, Decoded, CleanTail, ValueOf;
    var t := src[pos..pos + RunLength(src, pos, e.signedChar)];
    assert forall k | 0 <= k < |t| :: t[k] == src[pos + k];
    EncodeOfDecode(t, e.signedChar);
  }

  lemma VersionStated(src: Text, pos: nat, e: Platform)
    requires pos <= |src| && HasPrefix(src, pos, V_FIELD)
    ensures pos + 3 <= |src| && VersionField(src, pos, e) == DecimalU32(src, pos + 3, e)
  {
  }

  lemma DecodedNumbers(src: Text, kind: Type, e: Platform, c: Ctx) returns (at: seq<nat>)
    requires HasPrefix(src, 1 + |TypeName(kind)|, V_FIELD)
    requires var p := DecodingOfNumbers(src, kind, e);
      && p.Good? && p.value.version == c.version && p.value.mCost == c.mCost
      && p.value.tCost == c.tCost && p.value.lanes == c.lanes
    ensures |at| == 12 && NumbersMarked(src, kind, e, c, at) && at[11] == DecodingOfNumbers(src, kind, e).value.next
    ensures at[3] == at[2] + 3 && HasPrefix(src, at[2], V_FIELD)
    ensures DecimalU32(src, at[3], e) == Good(Field(c.version, at[4]))
  {
    hide Expect, VersionField, DecimalU32, TypeName;
    var p1 := Expect(src, 0, DOLLAR).value;
    var p2 := Expect(src, p1, TypeName(kind)).value;
    ExpectedSlice(src, 0, DOLLAR, p1);
    ExpectedSlice(src, p1, TypeName(kind), p2);
    VersionStated(src, p2, e);
    var version := VersionField(src, p2, e).value;
    var p5 := Expect(src, version.next, M_FIELD).value;
    var mCost := DecimalU32(src, p5, e).value;
    var p7 := Expect(src, mCost.next, T_FIELD).value;
    var tCost := DecimalU32(src, p7, e).value;
    var p9 := Expect(src, tCost.next, P_FIELD).value;
    var lanes := DecimalU32(src, p9, e).value;
    var p11 := Expect(src, lanes.next, DOLLAR).value;
    at := [0, p1, p2, p2 + 3, version.next, p5, mCost.next, p7, tCost.next, p9, lanes.next, p11];
  }

  lemma MorePlaces(src: Text, kind: Type, e: Platform, c: Ctx, at: seq<nat>, more: seq<nat>)
    requires |at| == 12 && NumbersMarked(src, kind, e, c, at)
    ensures NumbersMarked(src, kind, e, c, at + more)
  {
    hide Expect, VersionField, DecimalU32, TypeName;
  }

  /** With a version field the accepted text splits into the fourteen pieces of the context it decodes to. */
  lemma DecodedSlices(src: Text, kind: Type, saltRoom: Word32, outRoom: Word32, pwd: Buffer, e: Platform)
    returns (at: seq<nat>)
    requires Decoding(src, kind, saltRoom, outRoom, pwd, e).Good?
    requires HasPrefix(src, 1 + |TypeName(kind)|, V_FIELD)
    ensures var c := Decoding(src, kind, saltRoom, outRoom, pwd, e).value;
      Marks(src, kind, saltRoom, outRoom, e, c, at) && at[3] == at[2] + 3 && HasPrefix(src, at[2], V_FIELD)
      && DecimalU32(src, at[3], e) == Good(Field(c.version, at[4]))
  {
    hide DecodingOfNumbers, NumbersMarked, Expect, DecimalU32, BinaryField, TypeName, HasPrefix;
    hide ValidateInputs, InputOf;
    var c := Decoding(src, kind, saltRoom, outRoom, pwd, e).value;
    var front := DecodedNumbers(src, kind, e, c);
    var salt := BinaryField(src, front[11], saltRoom, e).value;
    var p13 := Expect(src, salt.next, DOLLAR).value;
    var out := BinaryField(src, p13, outRoom, e).value;
    MorePlaces(src, kind, e, c, front, [salt.next, p13, out.next]);
    at := front + [salt.next, p13, out.next];
  }

  lemma NumberSlices(src: Text, kind: Type, e: Platform, c: Ctx, at: seq<nat>)
    requires NumbersMarked(src, kind, e, c, at) && at[3] == at[2] + 3 && HasPrefix(src, at[2], V_FIELD)
    requires DecimalU32(src, at[3], e) == Good(Field(c.version, at[4]))
    ensures forall n | 0 <= n < 11 :: SliceAt(src, at, n, TextOf(Steps(c, kind)[n]))
  {
    hide Expect, DecimalU32, TypeName, Print, Encode, VersionField, Steps;
    StepsAre(c, kind);
    ExpectedSlice(src, at[0], DOLLAR, at[1]);
    ExpectedSlice(src, at[1], TypeName(kind), at[2]);
    DecimalSlice(src, at[3], e, c.version, at[4]);
    ExpectedSlice(src, at[4], M_FIELD, at[5]);
    DecimalSlice(src, at[5], e, c.mCost, at[6]);
    ExpectedSlice(src, at[6], T_FIELD, at[7]);
    DecimalSlice(src, at[7], e, c.tCost, at[8]);
    ExpectedSlice(src, at[8], P_FIELD, at[9]);
    DecimalSlice(src, at[9], e, c.lanes, at[10]);
    ExpectedSlice(src, at[10], DOLLAR, at[11]);
  }

  lemma BinarySlices(
    src: Text, kind: Type, saltRoom: Word32, outRoom: Word32, e: Platform, c: Ctx, at: seq<nat>)
    requires BinariesMarked(src, saltRoom, outRoom, e, c, at) && (!e.signedChar || SevenBit(src))
    ensures forall n | 11 <= n < 14 :: SliceAt(src, at, n, TextOf(Steps(c, kind)[n]))
  {
    hide Expect, BinaryField, Print, Encode, Steps;
    StepsAre(c, kind);
    BinarySlice(src, at[11], saltRoom, e, c.salt, at[12]);
    ExpectedSlice(src, at[12], DOLLAR, at[13]);
    BinarySlice(src, at[13], outRoom, e, c.out, at[14]);
  }

  lemma SevenBitJoin(a: Text, b: Text)
    requires SevenBit(a) && SevenBit(b)
    ensures SevenBit(a + b)
  {
  }

  lemma PieceSevenBit(p: Piece)
    requires p.Chars? ==> SevenBit(p.text)
    ensures SevenBit(TextOf(p))
  {
    match p
    case Chars(t) =>
    case Decimals(n) => assert AllDigits(Print(n));
    case Binary(b) =>
      hide Letter, Sextet;
      forall k | 0 <= k < |Encode(b)|
        ensures Encode(b)[k] < 0x80
      {
        LetterBijection(Sextet(b, k), 0);
      }
  }

  lemma {:induction false} JoinSevenBit(p: seq<Piece>)
    requires forall n | 0 <= n < |p| :: p[n].Chars? ==> SevenBit(p[n].text)
    ensures SevenBit(Join(p))
    decreases |p|
  {
    hide TextOf, SevenBit;
    if p == [] {
      NothingIsSevenBit();
    } else {
      PieceSevenBit(p[0]);
      JoinSevenBit(p[1..]);
      SevenBitJoin(TextOf(p[0]), Join(p[1..]));
    }
  }

  lemma NothingIsSevenBit()
    ensures SevenBit([])
  {
  }

  lemma HashTextSevenBit(c: Ctx, kind: Type)
    ensures SevenBit(HashText(c, kind))
  {
    hide Join;
    JoinSevenBit(Steps(c, kind));
  }

  /**
   * Canonical form: an accepted text is exactly what encode_string prints for the decoded context when
   * it states its version and, on platforms with signed `char`, holds no byte above 127.
   */
  lemma HashTextOfDecoding(src: Text, kind: Type, saltRoom: Word32, outRoom: Word32, pwd: Buffer, e: Platform)
    requires Decoding(src, kind, saltRoom, outRoom, pwd, e).Good?
    ensures HashText(Decoding(src, kind, saltRoom, outRoom, pwd, e).value, kind) == src
      <==> HasPrefix(src, 1 + |TypeName(kind)|, V_FIELD) && (!e.signedChar || SevenBit(src))
  {
    hide Decoding, Steps, HasPrefix, TypeName, SevenBit, Join;
    var c := Decoding(src, kind, saltRoom, outRoom, pwd, e).value;
    SecondPiece(c, kind);
    HashTextSevenBit(c, kind);
    if HasPrefix(src, 1 + |TypeName(kind)|, V_FIELD) && (!e.signedChar || SevenBit(src)) {
      var at := DecodedSlices(src, kind, saltRoom, outRoom, pwd, e);
      NumberSlices(src, kind, e, c, at);
      BinarySlices(src, kind, saltRoom, outRoom, e, c, at);
      assert at[0] == 0 && at[14] == |src| && |at| == 15 by { MarkEnds(src, kind, saltRoom, outRoom, e, c, at); }
      JoinOfSlices(Steps(c, kind), src, at);
      assert src[0..] == src;
    }
  }

  lemma MarkEnds(src: Text, kind: Type, saltRoom: Word32, outRoom: Word32, e: Platform, c: Ctx, at: seq<nat>)
    requires Marks(src, kind, saltRoom, outRoom, e, c, at)
    ensures |at| == 15 && at[0] == 0 && at[14] == |src|
  {
  }
}
