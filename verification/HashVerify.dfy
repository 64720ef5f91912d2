/** argon2_hash, argon2_verify, argon2_compare and argon2_encodedlen of argon2.c. */
module HashVerify {
  import opened Words
  import opened Base64
  import Decimal
  import LE = LittleEndian
  import opened Geometry
  import opened Context
  import opened HashString
  import opened DecodeString
  import A2 = Argon2

  /** The digest argon2_ctx computes for an accepted input. */
  type Digest = (Input, Type) -> seq<bv8>

  ghost predicate Sized(d: Digest) {
    forall c: Input, k: Type {:trigger d(c, k)} :: Acceptable(c) ==> |d(c, k)| == c.outlen
  }

  // ---- argon2_compare ----

  lemma OrXor(d: bv8, x: bv8, y: bv8)
    ensures d | (x ^ y) == 0 <==> d == 0 && x == y
  {
  }

  /** The branch-free result: bit 8 of d - 1 is set only for d == 0. */
  lemma BorrowBit(d: bv8)
    ensures (1 & (((d as bv32) - 1) >> 8)) == if d == 0 then 1 else 0
  {
  }

  method Compare(b1: seq<bv8>, b2: seq<bv8>, len: nat) returns (r: int)
    requires len <= |b1| && len <= |b2|
    ensures r == if b1[..len] == b2[..len] then 0 else -1
  {
    var d: bv8 := 0;
    for i := 0 to len
      invariant d == 0 <==> b1[..i] == b2[..i]
    {
      OrXor(d, b1[i], b2[i]);
      SameUpTo(b1, b2, i);
      d := d | (b1[i] ^ b2[i]);
    }
    BorrowBit(d);
    r := (if 1 & (((d as bv32) - 1) >> 8) == 1 then 1 else 0) - 1;
  }

  lemma SameUpTo(b1: seq<bv8>, b2: seq<bv8>, i: nat)
    requires i < |b1| && i < |b2|
    ensures b1[..i + 1] == b2[..i + 1] <==> b1[..i] == b2[..i] && b1[i] == b2[i]
  {
    assert b1[..i + 1] == b1[..i] + [b1[i]] && b2[..i + 1] == b2[..i] + [b2[i]];
  }

  // ---- argon2_encodedlen ----

  method EncodedLen(tCost: Word32, mCost: Word32, lanes: Word32, saltLen: Word32, hashLen: Word32, kind: Type)
    returns (len: nat)
    ensures len == 15 + |TypeName(kind)| + |Decimal.Print(tCost)| + |Decimal.Print(mCost)| + |Decimal.Print(lanes)|
      + EncodedLength(saltLen) + EncodedLength(hashLen) + |Decimal.Print(0x13)| + 1
  {
    hide Decimal.Print, EncodedLength;
    var t := Decimal.NumLen(tCost);
    var m := Decimal.NumLen(mCost);
    var p := Decimal.NumLen(lanes);
    var v := Decimal.NumLen(0x13);
    len := 15 + |TypeName(kind)| + t + m + p + EncodedLength(saltLen) + EncodedLength(hashLen) + v + 1;
  }

  /** The room the text of `c` needs, the terminator included. */
  function Needed(c: Ctx, kind: Type): nat {
    |HashText(c, kind)| + 1
  }

  lemma HashTextLength(c: Ctx, kind: Type)
    ensures |HashText(c, kind)| == 15 + |TypeName(kind)| + |Decimal.Print(c.version)| + |Decimal.Print(c.mCost)|
      + |Decimal.Print(c.tCost)| + |Decimal.Print(c.lanes)| + EncodedLength(|c.salt|) + EncodedLength(|c.out|)
  {
    hide Join, Pos, Decimal.Print, TypeName, EncodedLength;
    var p := Steps(c, kind);
    PlacesWithin(p);
    assert Places(p)[14] == Pos(p, 14);
    assert Places(p)[0] == Pos(p, 0);
    FirstHalfLength(c, kind, p);
    SecondHalfLength(c, kind, p);
  }

  lemma FirstHalfLength(c: Ctx, kind: Type, p: seq<Piece>)
    requires p == Steps(c, kind)
    ensures Pos(p, 7) == Pos(p, 0) + 10 + |TypeName(kind)| + |Decimal.Print(c.version)| + |Decimal.Print(c.mCost)|
  {
    hide Join, Pos, Decimal.Print, TypeName, Steps;
    StepsAre(c, kind);
    PieceAt(p, 0);
    PieceAt(p, 1);
    PieceAt(p, 2);
    PieceAt(p, 3);
    PieceAt(p, 4);
    PieceAt(p, 5);
    PieceAt(p, 6);
  }

  lemma SecondHalfLength(c: Ctx, kind: Type, p: seq<Piece>)
    requires p == Steps(c, kind)
    ensures Pos(p, 14) == Pos(p, 7) + 5 + |Decimal.Print(c.tCost)| + |Decimal.Print(c.lanes)|
      + EncodedLength(|c.salt|) + EncodedLength(|c.out|)
  {
    hide Join, Pos, Decimal.Print, EncodedLength, Steps;
    StepsAre(c, kind);
    PieceAt(p, 7);
    PieceAt(p, 8);
    PieceAt(p, 9);
    PieceAt(p, 10);
    PieceAt(p, 11);
    PieceAt(p, 12);
    PieceAt(p, 13);
  }

  lemma TwoDigits(n: nat)
    ensures |Decimal.Print(n)| == 2 <==> 10 <= n < 100
  {
  }

  /**
   * Exact accounting: argon2_encodedlen is the least buffer length encode_string accepts exactly
   * when the version prints in two digits, as both Argon2 versions (16 and 19) do.
   */
  lemma EncodedLenExact(c: Ctx, kind: Type, len: nat)
    requires len == 15 + |TypeName(kind)| + |Decimal.Print(c.tCost)| + |Decimal.Print(c.mCost)|
      + |Decimal.Print(c.lanes)| + EncodedLength(|c.salt|) + EncodedLength(|c.out|) + |Decimal.Print(0x13)| + 1
    ensures len == Needed(c, kind) <==> 10 <= c.version < 100
  {
    hide Decimal.Print, EncodedLength, TypeName, HashText;
    HashTextLength(c, kind);
    TwoDigits(c.version);
    TwoDigits(0x13);
  }

  /** A context that passes validation, with a version of three digits: the length is one too short. */
  lemma LongVersionMiscounted()
    ensures var c := Ctx(100, 8, 1, 1, 1, [1, 2, 3, 4, 5, 6, 7, 8], [1, 2, 3, 4], Null(0), Null(0), Null(0));
      && ValidateInputs(InputOf(c)) == Ok
      && Needed(c, Argon2id) == 15 + |TypeName(Argon2id)| + |Decimal.Print(c.tCost)| + |Decimal.Print(c.mCost)|
           + |Decimal.Print(c.lanes)| + EncodedLength(|c.salt|) + EncodedLength(|c.out|) + |Decimal.Print(0x13)| + 2
  {
    hide TypeName, HashText, EncodedLength;
    var c := Ctx(100, 8, 1, 1, 1, [1, 2, 3, 4, 5, 6, 7, 8], [1, 2, 3, 4], Null(0), Null(0), Null(0));
    HashTextLength(c, Argon2id);
    assert |Decimal.Print(100)| == 3 && |Decimal.Print(0x13)| == 2;
  }

  // ---- argon2_hash ----

  /** The context argon2_hash fills in, before the digest is known. */
  function HashInput(
    tCost: Word32, mCost: Word32, parallelism: Word32, pwd: Short, salt: Octets, hashLen: Word32,
    version: Word32): Input
  {
    Input(true, hashLen, Ptr(pwd), Ptr(Widen(salt)), Null(0), Null(0),
      tCost, mCost, parallelism, parallelism, version, false, false)
  }

  function HashCtx(
    tCost: Word32, mCost: Word32, parallelism: Word32, pwd: Short, salt: Octets, out: Octets,
    version: Word32): Ctx
  {
    Ctx(version, mCost, tCost, parallelism, parallelism, salt, out, Ptr(pwd), Null(0), Null(0))
  }

  /** What argon2_hash hashes and prints of its arguments: `parallelism` is the number of lanes and of threads. */
  lemma HashParameters(
    tCost: Word32, mCost: Word32, parallelism: Word32, pwd: Short, salt: Octets, out: Octets, version: Word32,
    kind: Type)
    ensures var i := HashInput(tCost, mCost, parallelism, pwd, salt, |out|, version);
      && i.tCost == tCost && i.mCost == mCost && i.lanes == i.threads == parallelism && i.version == version
      && i.outlen == |out| && i.pwd.Content() == pwd && i.salt.Content() == Widen(salt)
      && i.secret.Content() == i.ad.Content() == []
    ensures HashText(HashCtx(tCost, mCost, parallelism, pwd, salt, out, version), kind) ==
      Ascii(match kind case Argon2d => "$argon2d$v=" case Argon2i => "$argon2i$v=" case Argon2id => "$argon2id$v=")
      + Decimal.Print(version) + Ascii("$m=") + Decimal.Print(mCost) + Ascii(",t=") + Decimal.Print(tCost)
      + Ascii(",p=") + Decimal.Print(parallelism) + Ascii("$") + Encode(salt) + Ascii("$") + Encode(out)
  {
    hide HashText, Decimal.Print, Encode, Ascii;
    HashTextIs(HashCtx(tCost, mCost, parallelism, pwd, salt, out, version), kind);
  }

  /** The first check that fails, in the order of argon2_hash; `room` is the encoded buffer's length, 0 for none. */
  ghost function HashCode(d: Digest, tCost: Word32, mCost: Word32, parallelism: Word32, pwd: LE.Bytes, salt: seq<bv8>,
    hashLen: nat, room: nat, kind: Type, version: Word32): Code
    requires Sized(d)
  {
    if |pwd| > MAX_FIELD then PwdTooLong
    else if |salt| > MAX_FIELD then SaltTooLong
    else if hashLen > MAX_FIELD then OutputTooLong
    else if hashLen < MIN_OUTLEN then OutputTooShort
    else
      var input := HashInput(tCost, mCost, parallelism, pwd, salt, hashLen, version);
      if !Acceptable(input) then ValidateInputs(input)
      else
        var c := HashCtx(tCost, mCost, parallelism, pwd, salt, d(input, kind), version);
        if 0 < room < Needed(c, kind) then EncodingFail else Ok
  }

  /** The checks before the digest is computed all pass. */
  ghost predicate Computes(tCost: Word32, mCost: Word32, parallelism: Word32, pwd: LE.Bytes, salt: seq<bv8>,
    hashLen: nat, version: Word32)
  {
    && |pwd| <= MAX_FIELD && |salt| <= MAX_FIELD && hashLen <= MAX_FIELD
    && Acceptable(HashInput(tCost, mCost, parallelism, pwd, salt, hashLen, version))
  }

  method CopyBytes(dst: array<bv8>, src: seq<bv8>)
    requires |src| <= dst.Length
    modifies dst
    ensures dst[..] == src + old(dst[|src|..])
  {
    forall k | 0 <= k < |src| {
      dst[k] := src[k];
    }
  }

  /**
   * argon2_hash: lengths, then argon2_ctx, then the raw digest where one is asked for, then
   * encode_string. The digest stays written when only the encoding fails.
   */
  method Hash(d: Digest, tCost: Word32, mCost: Word32, parallelism: Word32, pwd: LE.Bytes, salt: seq<bv8>,
    hash: array?<bv8>, hashLen: nat, encoded: array<bv8>, encodedLen: nat, kind: Type, version: Word32)
    returns (code: Code)
    requires Sized(d) && encodedLen <= encoded.Length
    requires hash != null ==> hash != encoded && hashLen <= hash.Length
    modifies hash, encoded
    ensures code == HashCode(d, tCost, mCost, parallelism, pwd, salt, hashLen, encodedLen, kind, version)
    ensures |pwd| > MAX_FIELD ==> code == PwdTooLong
    ensures |pwd| <= MAX_FIELD < |salt| ==> code == SaltTooLong
    ensures |pwd| <= MAX_FIELD && |salt| <= MAX_FIELD && hashLen > MAX_FIELD ==> code == OutputTooLong
    ensures |pwd| <= MAX_FIELD && |salt| <= MAX_FIELD && hashLen < 4 ==> code == OutputTooShort
    ensures (code == Ok || code == EncodingFail) <==>
      Computes(tCost, mCost, parallelism, pwd, salt, hashLen, version)
    ensures encodedLen == 0 ==> code != EncodingFail
    ensures code == EncodingFail ==>
      encodedLen < Needed(HashCtx(tCost, mCost, parallelism, pwd, salt,
        d(HashInput(tCost, mCost, parallelism, pwd, salt, hashLen, version), kind), version), kind)
    ensures code == Ok ==> Computes(tCost, mCost, parallelism, pwd, salt, hashLen, version)
    ensures hash != null && Computes(tCost, mCost, parallelism, pwd, salt, hashLen, version) ==>
      var out := d(HashInput(tCost, mCost, parallelism, pwd, salt, hashLen, version), kind);
      hash[..] == out + old(hash[hashLen..])
    ensures hash != null && !Computes(tCost, mCost, parallelism, pwd, salt, hashLen, version) ==>
      hash[..] == old(hash[..])
    ensures code == Ok && encodedLen > 0 ==>
      var c := HashCtx(tCost, mCost, parallelism, pwd, salt,
        d(HashInput(tCost, mCost, parallelism, pwd, salt, hashLen, version), kind), version);
      encodedLen >= Needed(c, kind) && encoded[..Needed(c, kind)] == HashText(c, kind) + [0]
  {
    hide HashText, ValidateInputs, Acceptable;
    if |pwd| > MAX_FIELD {
      return PwdTooLong;
    }
    if |salt| > MAX_FIELD {
      return SaltTooLong;
    }
    if hashLen > MAX_FIELD {
      return OutputTooLong;
    }
    if hashLen < MIN_OUTLEN {
      OutputChecked(HashInput(tCost, mCost, parallelism, pwd, salt, hashLen, version));
      return OutputTooShort;
    }
    var input := HashInput(tCost, mCost, parallelism, pwd, salt, hashLen, version);
    code := ValidateInputs(input);
    AcceptedExactly(input);
    ValidationCodes(input);
    if code != Ok {
      return;
    }
    var out := d(input, kind);
    SizedInput(d, input, kind);
    if hash != null {
      CopyBytes(hash, out);
    }
    var c := HashCtx(tCost, mCost, parallelism, pwd, salt, out, version);
    if encodedLen > 0 {
      assert InputOf(c) == input;
      var r := EncodeString(encoded, encodedLen, c, kind);
      if r != Ok {
        return EncodingFail;
      }
      assert encoded[..|HashText(c, kind)| + 1] == encoded[..|HashText(c, kind)|] + [encoded[|HashText(c, kind)|]];
    }
    return Ok;
  }

  lemma OutputChecked(c: Input)
    requires c.outlen < MIN_OUTLEN
    ensures !Acceptable(c)
  {
  }

  // ---- argon2_verify ----

  /** What argon2_verify returns for a C string. */
  ghost function Verdict(d: Digest, encoded: Text, pwd: LE.Bytes, kind: Type, e: Platform): Code {
    if |pwd| > MAX_FIELD then PwdTooLong
    else if |encoded| > MAX_FIELD then DecodingFail
    else
      match Decoding(encoded, kind, |encoded|, |encoded|, Ptr(pwd), e)
      case Bad(code) => code
      case Good(c) => if d(InputOf(c), kind) == c.out then Ok else VerifyMismatch
  }

  lemma DecodedIsAcceptable(encoded: Text, kind: Type, saltRoom: Word32, outRoom: Word32, pwd: Buffer, e: Platform)
    requires Decoding(encoded, kind, saltRoom, outRoom, pwd, e).Good?
    ensures Acceptable(InputOf(Decoding(encoded, kind, saltRoom, outRoom, pwd, e).value))
  {
    hide Expect, DecimalU32, BinaryField, VersionField, TypeName, ValidateInputs, Acceptable;
    AcceptedExactly(InputOf(Decoding(encoded, kind, saltRoom, outRoom, pwd, e).value));
  }

  method Verify(d: Digest, encoded: Text, pwd: LE.Bytes, kind: Type, e: Platform) returns (code: Code)
    requires Sized(d)
    ensures code == Verdict(d, encoded, pwd, kind, e)
    ensures code == Ok <==>
      && |pwd| <= MAX_FIELD && |encoded| <= MAX_FIELD
      && exists c ::
           Decoding(encoded, kind, |encoded|, |encoded|, Ptr(pwd), e) == Good(c) && d(InputOf(c), kind) == c.out
    ensures code == VerifyMismatch <==>
      && |pwd| <= MAX_FIELD && |encoded| <= MAX_FIELD
      && exists c ::
           Decoding(encoded, kind, |encoded|, |encoded|, Ptr(pwd), e) == Good(c) && d(InputOf(c), kind) != c.out
  {
    hide Decoding, Acceptable, InputOf;
    if |pwd| > MAX_FIELD {
      return PwdTooLong;
    }
    if |encoded| > MAX_FIELD {
      return DecodingFail;
    }
    var saltBuf, outBuf := new bv8[|encoded|], new bv8[|encoded|];
    var r := DecodeString.DecodeString(encoded, kind, saltBuf, outBuf, Ptr(pwd), e);
    RefusalIsNotOk(encoded, kind, |encoded|, |encoded|, Ptr(pwd), e);
    if r.Bad? {
      return r.code;
    }
    var c := r.value;
    DecodedIsAcceptable(encoded, kind, |encoded|, |encoded|, Ptr(pwd), e);
    SizedAt(d, c, kind);
    var out := d(InputOf(c), kind);
    var differs := Compare(c.out, out, |out|);
    assert out[..|out|] == out && c.out[..|out|] == c.out;
    if differs != 0 {
      return VerifyMismatch;
    }
    return Ok;
  }

  lemma SizedAt(d: Digest, c: Ctx, kind: Type)
    requires Sized(d) && Acceptable(InputOf(c))
    ensures |d(InputOf(c), kind)| == |c.out|
  {
  }

  /**
   * argon2_verify accepts, for the same password and type, every string argon2_hash encodes, exactly
   * when the string is no longer than 2^32-1 characters; longer ones it refuses before reading them.
   */
  lemma VerifyAcceptsHash(
    d: Digest, tCost: Word32, mCost: Word32, parallelism: Word32, pwd: Short, salt: Octets, hashLen: Word32,
    version: Word32, kind: Type, e: Platform)
    requires Sized(d) && ValidPlatform(e)
    requires Acceptable(HashInput(tCost, mCost, parallelism, pwd, salt, hashLen, version))
    ensures var out := d(HashInput(tCost, mCost, parallelism, pwd, salt, hashLen, version), kind);
      var text := HashText(HashCtx(tCost, mCost, parallelism, pwd, salt, out, version), kind);
      Verdict(d, text, pwd, kind, e) == if |text| <= MAX_FIELD then Ok else DecodingFail
  {
    hide HashText, ValidateInputs, Acceptable, Decoding;
    var input := HashInput(tCost, mCost, parallelism, pwd, salt, hashLen, version);
    var out := d(input, kind);
    assert |out| == hashLen by { SizedInput(d, input, kind); }
    var c := HashCtx(tCost, mCost, parallelism, pwd, salt, out, version);
    var text := HashText(c, kind);
    if |text| <= MAX_FIELD {
      AcceptedExactly(InputOf(c));
      TextHoldsFields(c, kind);
      DecodingOfHashText(c, kind, |text|, |text|, Ptr(pwd), e);
    }
  }

  /**
   * Under another password the string is refused with a mismatch exactly when the two passwords have different
   * digests, provided it is short enough to be read.
   */
  lemma VerifyOtherPassword(
    d: Digest, tCost: Word32, mCost: Word32, parallelism: Word32, pwd: Short, other: Short, salt: Octets,
    hashLen: Word32, version: Word32, kind: Type, e: Platform)
    requires Sized(d) && ValidPlatform(e)
    requires Acceptable(HashInput(tCost, mCost, parallelism, pwd, salt, hashLen, version))
    ensures var out := d(HashInput(tCost, mCost, parallelism, pwd, salt, hashLen, version), kind);
      var text := HashText(HashCtx(tCost, mCost, parallelism, pwd, salt, out, version), kind);
      var same := d(HashInput(tCost, mCost, parallelism, other, salt, hashLen, version), kind) == out;
      |text| <= MAX_FIELD ==> Verdict(d, text, other, kind, e) == if same then Ok else VerifyMismatch
  {
    hide HashText, ValidateInputs, Acceptable, Decoding;
    var input := HashInput(tCost, mCost, parallelism, pwd, salt, hashLen, version);
    var out := d(input, kind);
    assert |out| == hashLen by { SizedInput(d, input, kind); }
    var c := HashCtx(tCost, mCost, parallelism, pwd, salt, out, version);
    var text := HashText(c, kind);
    if |text| <= MAX_FIELD {
      AcceptedExactly(InputOf(c));
      TextHoldsFields(c, kind);
      DecodingOfHashText(c, kind, |text|, |text|, Ptr(other), e);
    }
  }

  /** Such strings exist: any hash of the largest accepted length is refused by argon2_verify under its own password. */
  lemma LongestHashRefused(
    d: Digest, tCost: Word32, mCost: Word32, parallelism: Word32, pwd: Short, salt: Octets, version: Word32, kind: Type,
    e: Platform)
    requires Sized(d) && ValidPlatform(e)
    requires Acceptable(HashInput(tCost, mCost, parallelism, pwd, salt, MAX_FIELD, version))
    ensures var out := d(HashInput(tCost, mCost, parallelism, pwd, salt, MAX_FIELD, version), kind);
      var text := HashText(HashCtx(tCost, mCost, parallelism, pwd, salt, out, version), kind);
      |text| > MAX_FIELD && Verdict(d, text, pwd, kind, e) == DecodingFail
  {
    hide HashText, Acceptable, Verdict, Decoding;
    var input := HashInput(tCost, mCost, parallelism, pwd, salt, MAX_FIELD, version);
    var out := d(input, kind);
    assert |out| == MAX_FIELD by { SizedInput(d, input, kind); }
    TextLongerThanDigest(HashCtx(tCost, mCost, parallelism, pwd, salt, out, version), kind);
    VerifyAcceptsHash(d, tCost, mCost, parallelism, pwd, salt, MAX_FIELD, version, kind, e);
  }

  lemma TextLongerThanDigest(c: Ctx, kind: Type)
    ensures |c.out| < |HashText(c, kind)|
  {
    hide HashText, Decimal.Print, TypeName;
    HashTextLength(c, kind);
  }

  /** A context of that kind passes validation. */
  lemma LongestHashAcceptable(pwd: Short, salt: Octets)
    requires |salt| >= MIN_SALT_LENGTH
    ensures Acceptable(HashInput(1, 8, 1, pwd, salt, MAX_FIELD, 0x13))
  {
  }

  lemma SizedInput(d: Digest, c: Input, kind: Type)
    requires Sized(d) && Acceptable(c)
    ensures |d(c, kind)| == c.outlen
  {
  }

  /** The text is longer than the salt and the digest it encodes, so argon2_verify's buffers are large enough. */
  lemma TextHoldsFields(c: Ctx, kind: Type)
    ensures |c.salt| <= |HashText(c, kind)| && |c.out| <= |HashText(c, kind)|
  {
    hide HashText, Decimal.Print, TypeName;
    HashTextLength(c, kind);
  }

  /** The other two types refuse the string. */
  lemma VerifyRefusesOtherType(d: Digest, c: Ctx, kind: Type, other: Type, pwd: Short, e: Platform)
    requires kind != other
    ensures Verdict(d, HashText(c, kind), pwd, other, e) == DecodingFail
  {
    hide HashText, Decoding;
    var text := HashText(c, kind);
    if |text| <= MAX_FIELD {
      OtherTypeRefused(c, kind, other, |text|, |text|, Ptr(pwd), e);
    }
  }

  // ---- with the digest of Argon2.dfy ----

  function NarrowByte(b: Byte): bv8 {
    b as bv8
  }

  function Narrow(s: LE.Bytes): (r: seq<bv8>)
    ensures |r| == |s|
  {
    seq(|s|, k requires 0 <= k < |s| => NarrowByte(s[k]))
  }

  function Argon2Digest(p: A2.Primitives, c: Input, kind: Type): (t: seq<bv8>)
    ensures Acceptable(c) ==> |t| == c.outlen
  {
    if Acceptable(c) then Narrow(A2.Tag(p, c, kind)) else []
  }

  /** The theorem above holds of the Argon2 tag itself, whatever its two primitives are. */
  lemma VerifyAcceptsArgon2Hash(
    p: A2.Primitives, tCost: Word32, mCost: Word32, parallelism: Word32, pwd: Short, salt: Octets, hashLen: Word32,
    version: Word32, kind: Type, e: Platform)
    requires ValidPlatform(e)
    requires Acceptable(HashInput(tCost, mCost, parallelism, pwd, salt, hashLen, version))
    ensures var d: Digest := (c, k) => Argon2Digest(p, c, k);
      var text := HashText(HashCtx(tCost, mCost, parallelism, pwd, salt,
        Argon2Digest(p, HashInput(tCost, mCost, parallelism, pwd, salt, hashLen, version), kind), version), kind);
      Verdict(d, text, pwd, kind, e) == if |text| <= MAX_FIELD then Ok else DecodingFail
  {
    hide HashText, Acceptable, Verdict, HashInput, HashCtx;
    var d: Digest := (c, k) => Argon2Digest(p, c, k);
    VerifyAcceptsHash(d, tCost, mCost, parallelism, pwd, salt, hashLen, version, kind, e);
  }
}
