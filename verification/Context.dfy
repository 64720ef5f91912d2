/** argon2_context and the checks of validate_inputs, on a platform with 64-bit pointers. */
module Context {
  import opened Words
  import opened LittleEndian
  import opened Geometry

  const MIN_LANES := 1
  const MAX_LANES := 0xFFFFFF
  const MIN_THREADS := 1
  const MAX_THREADS := 0xFFFFFF
  const MIN_OUTLEN := 4
  const MIN_SALT_LENGTH := 8
  const MIN_MEMORY := 2 * SYNC_POINTS
  const MIN_TIME := 1
  const MAX_WORD := 0xFFFF_FFFF

  datatype Code =
    | Ok | OutputPtrNull | OutputTooShort | OutputTooLong | PwdTooShort | PwdTooLong | SaltTooShort | SaltTooLong
    | AdTooShort | AdTooLong | SecretTooShort | SecretTooLong | TimeTooSmall | TimeTooLarge
    | MemoryTooLittle | MemoryTooMuch | LanesTooFew | LanesTooMany
    | PwdPtrMismatch | SaltPtrMismatch | SecretPtrMismatch | AdPtrMismatch
    | FreeMemoryCbkNull | AllocateMemoryCbkNull | ThreadsTooFew | ThreadsTooMany
    | EncodingFail | DecodingFail | VerifyMismatch

  type Short = s: Bytes | |s| < TWO_32

  /** A pointer and its `uint32_t` length field. */
  datatype Buffer = Null(length: Word32) | Ptr(data: Short)
  {
    function Len(): Word32 {
      if Null? then length else |data|
    }

    function Content(): Short {
      if Null? then [] else data
    }
  }

  datatype Input = Input(
    outPresent: bool, outlen: Word32, pwd: Buffer, salt: Buffer, secret: Buffer, ad: Buffer,
    tCost: Word32, mCost: Word32, lanes: Word32, threads: Word32, version: Word32,
    allocateCbk: bool, freeCbk: bool)

  /** The checks in the order of the C function; `8 * lanes` is a `uint32_t` product. */
  function ValidateInputs(c: Input): Code {
    if !c.outPresent then OutputPtrNull
    else if MIN_OUTLEN > c.outlen then OutputTooShort
    else if MAX_WORD < c.outlen then OutputTooLong
    else if c.pwd.Null? && c.pwd.Len() != 0 then PwdPtrMismatch
    else if 0 > c.pwd.Len() then PwdTooShort
    else if MAX_WORD < c.pwd.Len() then PwdTooLong
    else if c.salt.Null? && c.salt.Len() != 0 then SaltPtrMismatch
    else if MIN_SALT_LENGTH > c.salt.Len() then SaltTooShort
    else if MAX_WORD < c.salt.Len() then SaltTooLong
    else if c.secret.Null? && c.secret.Len() != 0 then SecretPtrMismatch
    else if c.secret.Ptr? && 0 > c.secret.Len() then SecretTooShort
    else if c.secret.Ptr? && MAX_WORD < c.secret.Len() then SecretTooLong
    else if c.ad.Null? && c.ad.Len() != 0 then AdPtrMismatch
    else if c.ad.Ptr? && 0 > c.ad.Len() then AdTooShort
    else if c.ad.Ptr? && MAX_WORD < c.ad.Len() then AdTooLong
    else if MIN_MEMORY > c.mCost then MemoryTooLittle
    else if MAX_WORD < c.mCost then MemoryTooMuch
    else if c.mCost < U32(8 * c.lanes) then MemoryTooLittle
    else if MIN_TIME > c.tCost then TimeTooSmall
    else if MAX_WORD < c.tCost then TimeTooLarge
    else if MIN_LANES > c.lanes then LanesTooFew
    else if MAX_LANES < c.lanes then LanesTooMany
    else if MIN_THREADS > c.threads then ThreadsTooFew
    else if MAX_THREADS < c.threads then ThreadsTooMany
    else if c.allocateCbk && !c.freeCbk then FreeMemoryCbkNull
    else if !c.allocateCbk && c.freeCbk then AllocateMemoryCbkNull
    else Ok
  }

  /** Section 3.1 of RFC 9106, with the library's own minima, and in unbounded arithmetic. */
  predicate Acceptable(c: Input) {
    && c.outPresent && c.outlen >= 4
    && (c.pwd.Null? ==> c.pwd.Len() == 0) && c.salt.Ptr? && |c.salt.data| >= 8
    && (c.secret.Null? ==> c.secret.Len() == 0) && (c.ad.Null? ==> c.ad.Len() == 0)
    && 1 <= c.lanes < 0x100_0000 && 1 <= c.threads < 0x100_0000 && c.tCost >= 1
    && c.mCost >= 8 * c.lanes
    && c.allocateCbk == c.freeCbk
  }

  /** Although `8 * lanes` can wrap when it is tested, no context it lets through wrongly survives. */
  lemma AcceptedExactly(c: Input)
    ensures ValidateInputs(c) == Ok <==> Acceptable(c)
  {
    if c.lanes <= MAX_LANES {
      Fits(8 * c.lanes);
    }
  }

  /** The code names the fault, whichever single field of an acceptable context is spoilt. */
  lemma FaultIsNamed(c: Input, n: Word32, s: Short)
    requires Acceptable(c)
    ensures ValidateInputs(c.(outPresent := false)) == OutputPtrNull
    ensures n < 4 ==> ValidateInputs(c.(outlen := n)) == OutputTooShort
    ensures n > 0 ==>
      && ValidateInputs(c.(pwd := Null(n))) == PwdPtrMismatch
      && ValidateInputs(c.(salt := Null(n))) == SaltPtrMismatch
      && ValidateInputs(c.(secret := Null(n))) == SecretPtrMismatch
      && ValidateInputs(c.(ad := Null(n))) == AdPtrMismatch
    ensures |s| < 8 ==> ValidateInputs(c.(salt := Ptr(s))) == SaltTooShort
    ensures n < 8 * c.lanes ==> ValidateInputs(c.(mCost := n)) == MemoryTooLittle
    ensures ValidateInputs(c.(tCost := 0)) == TimeTooSmall && ValidateInputs(c.(lanes := 0)) == LanesTooFew
    ensures n >= 0x100_0000 && c.mCost >= U32(8 * n) ==> ValidateInputs(c.(lanes := n)) == LanesTooMany
    ensures ValidateInputs(c.(threads := 0)) == ThreadsTooFew
    ensures n >= 0x100_0000 ==> ValidateInputs(c.(threads := n)) == ThreadsTooMany
    ensures ValidateInputs(c.(allocateCbk := true, freeCbk := false)) == FreeMemoryCbkNull
    ensures ValidateInputs(c.(allocateCbk := false, freeCbk := true)) == AllocateMemoryCbkNull
  {
    Fits(8 * c.lanes);
  }

  /** The codes of the later stages are never given by validation. */
  lemma ValidationCodes(c: Input)
    ensures ValidateInputs(c) !in {EncodingFail, DecodingFail, VerifyMismatch}
  {
  }

  /** The instance argon2_ctx builds from an accepted context is well-formed. */
  function InstanceOf(c: Input, kind: Type): (i: Instance)
    requires Acceptable(c)
    ensures Valid(i)
  {
    MakeInstanceValid(c.mCost, c.tCost, c.lanes, c.threads, c.version, kind);
    MakeInstance(c.mCost, c.tCost, c.lanes, c.threads, c.version, kind)
  }

  /** Too many lanes for the memory, but few enough after wrapping: only the later test of `lanes` refuses this. */
  lemma ProductCanWrap()
    ensures var salt: Short := [0, 0, 0, 0, 0, 0, 0, 0];
      var c := Input(true, 32, Null(0), Ptr(salt), Null(0), Null(0), 1, 8, 0x2000_0001, 1, 0x13, false, false);
      && c.mCost >= U32(8 * c.lanes) && c.mCost < 8 * c.lanes
      && ValidateInputs(c) == LanesTooMany
  {
  }
}
