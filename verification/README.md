# Verification of PassOne's cryptographic and server cores

A Dafny model of four parts of PassOne, a self-hosted password manager, and proofs of what they promise.

* **Argon2** (`Words`, `Bits`, `Mixing`, `BlaMka`, `Permutation`, `FillBlock`, `Geometry`, `Filling`, `Isolation`, `Schedule`, `ThreadPool`,
  `WordSchedule`, `WordProgress`, `FillSegment`, `Initialised`, `Addressing`, `Context`, `Argon2`). The vendored C library fills one shared array from
  several threads without locks. `Filling` specifies the fill on a lanes-by-columns matrix over any block
  operations; `FillSegment` proves the C loops on the flat array, with `uint32_t` offsets, against it;
  `Schedule` is the multi-threaded filler as a transition system in which a lane's reads and its write
  are separate actions, and `WordSchedule` refines these to accesses of single words. Every schedule that finishes
  computes the sequential result, and `Argon2` carries this up to the tag.
* **BLAKE2b and H'** (`LittleEndian`, `Blake2b`, `Rfc7693`, `LongHash`). The buffered state machine, over any compression
  function, against the one-shot hash of RFC 7693 and the variable-length hash of RFC 9106.
* **The encoded hash** (`Base64`, `Decimal`, `HashString`, `DecodeString`, `HashVerify`). Printer and parser of
  `$argon2id$v=19$m=...`, their exact buffer accounting, and argon2_hash against argon2_verify.
* **The server** (`RateLimit`, `Store`, `Accounts`, `Sessions`, `Credentials`, `VaultCas`, `Server`) and the ECDSA transcoder of
  the Android app (`WebAuthn`). Token bucket, account and session state machine, vault compare-and-swap.

Where the sources change state, so does the model: arrays for the block memory, the hash buffer and the text buffers,
classes for the hash state, the limiter, the store and the handlers. Each method is proved against a
specification function, and the theorems are about those functions.

Inputs of the model: the BLAKE2b compression function; the random values, tokens and clock readings; whether
`char` is signed; ULONG_MAX. Session and invite tokens stand for their SHA-256 hashes and never repeat.

## Findings

Properties that hold only under a condition, each proved as an equivalence or with a witness, and places where code and comments disagree:

* The window mapping of `index_alpha` reaches every member of the reference set exactly when the set has at most
  2^31 members; in a larger one the oldest block is never chosen (`Geometry.WindowReachedExactlyWhen`), and a
  lane of 2^32-4 blocks has such a set (`Geometry.LargestWindow`).
* The comparison macros of `encoding.c` are meant for values 0 to 255. Where `char` is signed a byte above 127 is
  read as the Base64 value 63, so a non-Base64 text can be accepted (`Base64.EncodeOfDecode`, `Base64.HighBytesAccepted`).
* `argon2_verify` refuses texts longer than 2^32-1 characters (`HashVerify.VerifyAcceptsHash`), and `argon2_hash`
  can produce them (`HashVerify.LongestHashRefused`).
* `argon2_encodedlen` counts two digits for the version; the encoder prints any 32-bit version
  (`HashVerify.EncodedLenExact`), and validate_inputs accepts any (`HashVerify.LongVersionMiscounted`).
* The comment on the rate limiter says that a token is consumed per allowed request. The request that creates
  a bucket is not charged, so a new IP gets limit + 1 requests through at once (`RateLimit.FreshBurst`). The documented
  bound holds exactly when the first request finds a bucket (`RateLimit.DocumentedBoundExactlyWhen`).
* The comment on `UpdateAuthMaterial` says that it revokes all sessions; it does so exactly when the recovery key is
  burned or there are none (`Sessions.UpdateAuthRevokes`).
* Setting up an account and changing or recovering a password need wrapped copies of the vault key that are not empty,
  under the password and, if there is a recovery hash, under the recovery key. A vault write only checks that these
  fields can be decoded, and one that is not empty may decode to no bytes. Exactly such a write empties the stored copy
  (`Accounts.KeysHeldExactlyWhen`; over runs `Sessions.KeysHeldOnRuns`; an example is `Sessions.KeysEmptied`), and
  without one the no_recovery branch is dead code (`Sessions.RecoveryPayloadFilled`).

## Model

| member | source | states |
|---|---|---|
| Schedule.ScheduleIndependence | app/packages/argon2_ffi/ios/Classes/argon2src/core.c:292-372 | every interleaving of creates, joins, reads and writes that finishes leaves in memory exactly what the single-threaded filler leaves, for all pass, lane and thread counts and block contents |
| WordSchedule.WordScheduleIndependence | app/packages/argon2_ffi/ios/Classes/argon2src/core.c:292-372 | the same when lanes read and write their blocks one 64-bit word at a time, in any order and with scratch values in between, and other threads act between any two words |
| WordSchedule.NoTornReads | app/packages/argon2_ffi/ios/Classes/argon2src/ref.c:151-180 | at any point of any such run the words a lane has gathered are words of the whole blocks it would read running alone |
| WordSchedule.ReadsNothingTorn | app/packages/argon2_ffi/ios/Classes/argon2src/ref.c:162-180 | no cell a lane reads is in the middle of being written |
| WordSchedule.StepFollows | app/packages/argon2_ffi/ios/Classes/argon2src/core.c:311-357 | each word access, computation and control action follows the run of whole blocks, in which a load happens when a lane starts to compute and a store when its last word is written |
| WordProgress.EveryRunCanFinish | app/packages/argon2_ffi/ios/Classes/argon2src/core.c:311-357 | every run of word accesses can be carried on until the filler finishes |
| Schedule.RunInv | app/packages/argon2_ffi/ios/Classes/argon2src/core.c:311-357 | on every run each running lane has fetched what it would have fetched alone, and memory is the base of the slice with each lane at its own progress |
| Schedule.StepInv | app/packages/argon2_ffi/ios/Classes/argon2src/core.c:311-357 | each of the eight kinds of action keeps that invariant |
| Schedule.StoreInv | app/packages/argon2_ffi/ios/Classes/argon2src/ref.c:177-192 | a store computed from blocks read arbitrarily earlier still keeps memory merged |
| Schedule.LoadInv | app/packages/argon2_ffi/ios/Classes/argon2src/ref.c:151-180 | what a lane reads in the middle of other lanes' writes is what it reads running alone |
| Schedule.SliceEnd | app/packages/argon2_ffi/ios/Classes/argon2src/core.c:349-356 | once the remaining threads are joined, memory equals the sequential slice |
| Schedule.NextSliceInv | app/packages/argon2_ffi/ios/Classes/argon2src/core.c:311-313 | moving to the next slice or pass re-establishes the invariant from the sequential result |
| ThreadPool.AtMostThreadsAlive | app/packages/argon2_ffi/ios/Classes/argon2src/core.c:316-337 | at no point of any run are more than `threads` lane threads created and not joined |
| ThreadPool.NoneAliveBetweenSlices | app/packages/argon2_ffi/ios/Classes/argon2src/core.c:349-356 | when a slice ends every lane thread of it has been joined |
| ThreadPool.OneThreadPerLaneAndSlice | app/packages/argon2_ffi/ios/Classes/argon2src/core.c:316-356 | in a finished run, in every slice of every pass, each lane's thread is created exactly once and joined exactly once |
| ThreadPool.NoDeadlock | app/packages/argon2_ffi/ios/Classes/argon2src/core.c:316-356 | in every reachable state some action is possible exactly when the filler has not finished |
| ThreadPool.CanFinish | app/packages/argon2_ffi/ios/Classes/argon2src/core.c:311-357 | from every state that satisfies the invariant some continuation lets the filler finish |
| ThreadPool.SchedulesFinish | app/packages/argon2_ffi/ios/Classes/argon2src/core.c:311-357 | no run is longer than a bound fixed by the geometry, and one that cannot go on has the sequential result in memory |
| Isolation.SliceIsolation | app/packages/argon2_ffi/ios/Classes/argon2src/ref.c:132-193 | two lanes in the same slice, at any progress, never read or write the block the other is writing |
| Isolation.ReferenceIsolated | app/packages/argon2_ffi/ios/Classes/argon2src/ref.c:162-175 | a reference into another lane lies outside the segments being written; one into the same lane is neither the current nor the previous block |
| Isolation.SegmentFrame | app/packages/argon2_ffi/ios/Classes/argon2src/ref.c:144-193 | fill_segment writes only its own lane's current segment |
| Isolation.FetchAgrees | app/packages/argon2_ffi/ios/Classes/argon2src/ref.c:151-180 | the blocks a step reads depend only on the lane's own row and on columns outside the current segments |
| Isolation.MergedStep | app/packages/argon2_ffi/ios/Classes/argon2src/ref.c:144-193 | one block-step of any lane keeps the memory the merge of lanes run separately |
| Isolation.SliceMerged | app/packages/argon2_ffi/ios/Classes/argon2src/core.c:264-268 | the sequential order is one way of merging the lanes |
| Isolation.MergedIsSlice | app/packages/argon2_ffi/ios/Classes/argon2src/core.c:264-268 | when all lanes are done the merged memory is the sequential one, whatever the order was |
| Initialised.WrittenOncePerPass | app/packages/argon2_ffi/ios/Classes/argon2src/ref.c:121-149 | on every finished run each block is stored once in every pass, except columns 0 and 1 in pass 0 |
| Initialised.ReadsAreWritten | app/packages/argon2_ffi/ios/Classes/argon2src/ref.c:151-180 | in pass 0, under any schedule, the predecessor and the reference of a block-step have been written before they are read |
| Initialised.GarbageIrrelevant | app/packages/argon2_ffi/ios/Classes/argon2src/core.c:612-648 | the filled memory depends only on the first two columns: what the allocator returned never shows |
| Initialised.BlockStepAgrees | app/packages/argon2_ffi/ios/Classes/argon2src/ref.c:144-187 | in pass 0 two memories that agree on written blocks still agree after the step, the new block included |
| Addressing.DataIndependentTrace | app/packages/argon2_ffi/ios/Classes/argon2src/ref.c:104-130 | for Argon2i always, and for Argon2id in pass 0 slices 0 and 1, the same schedule on different memory contents is possible and touches the same blocks in the same order |
| Addressing.SameStep | app/packages/argon2_ffi/ios/Classes/argon2src/ref.c:151-175 | one action: enabled alike, and with data-independent addressing the same accesses, whatever the block contents |
| Filling.PseudoRandIs | app/packages/argon2_ffi/ios/Classes/argon2src/ref.c:104-160 | for Argon2i, and for Argon2id in slices 0 and 1 of pass 0, the value is word i mod 128 of G(0, G(0, Z)) with counter i/128 + 1 in Z; everywhere else it is the first word of the previous block |
| Filling.ReferenceIs | app/packages/argon2_ffi/ios/Classes/argon2src/ref.c:162-175 | J2 modulo the lanes is the lane, except in the first slice of pass 0; J1 is the place in W, the x, y, zz of section 3.4.2 of RFC 9106 |
| Filling.BlockStepIs | app/packages/argon2_ffi/ios/Classes/argon2src/ref.c:144-192 | a block-step changes one block, to G of its predecessor and its reference, exclusive-ored onto the old one from pass 1 on unless the version is 0x10 |
| FillSegment.NextIndependent | app/packages/argon2_ffi/ios/Classes/argon2src/ref.c:153-157 | at index i the pseudo-random value is word i mod 128 of the address block with counter i/128 + 1, although the counter is only incremented |
| FillSegment.PreviousOffset | app/packages/argon2_ffi/ios/Classes/argon2src/ref.c:145-149 | after the rotation test `prev_offset` is the cyclic predecessor of `curr_offset` within its lane, and both are inside the array |
| FillSegment.OffsetBound | app/packages/argon2_ffi/ios/Classes/argon2src/ref.c:132-142 | every block offset fits in 32 bits |
| FillSegment.OffsetUnique | app/packages/argon2_ffi/ios/Classes/argon2src/ref.c:177-180 | different lane and column pairs have different offsets |
| FillSegment.RowsUpdate | app/packages/argon2_ffi/ios/Classes/argon2src/ref.c:180-192 | storing one array element changes exactly one cell of the lanes-by-columns matrix |
| FillSegment.StartOffsets | app/packages/argon2_ffi/ios/Classes/argon2src/ref.c:132-142 | both offsets before the loop, computed in `uint32_t`, are the current column and its cyclic predecessor |
| FillSegment.StoreBlock | app/packages/argon2_ffi/ios/Classes/argon2src/ref.c:162-192 | reference lane, reference index and the version and pass cases of the store together are one block-step of the specification |
| FillSegment.BuildBlock | app/packages/argon2_ffi/ios/Classes/argon2src/ref.c:144-193 | one turn of the loop is one block-step and keeps offsets and address block in step with the index |
| FillSegment.FillSegment | app/packages/argon2_ffi/ios/Classes/argon2src/ref.c:90-194 | the in-place loop on the flat array computes the segment of the specification |
| FillSegment.FillMemoryBlocksSt | app/packages/argon2_ffi/ios/Classes/argon2src/core.c:260-275 | the three nested loops compute all passes of the specification |
| Geometry.MakeInstanceValid | app/packages/argon2_ffi/ios/Classes/argon2src/argon2.c:53-77 | for every accepted memory cost, lane and thread count no `uint32_t` step wraps, segments have at least two blocks, less than one row of segments is lost to rounding, threads are cut down to the lanes, and the other parameters are kept |
| Geometry.AreaBounds | app/packages/argon2_ffi/ios/Classes/argon2src/core.c:206-235 | the unsigned reference area size never wraps, is at least 1 and less than the lane length |
| Geometry.RelativeExact | app/packages/argon2_ffi/ios/Classes/argon2src/core.c:237-242 | the 64-bit products do not overflow: the result is the exact relative position, below the area size |
| Geometry.RelativePositionNonIncreasing | app/packages/argon2_ffi/ios/Classes/argon2src/core.c:237-242 | larger pseudo-random values never give newer blocks |
| Geometry.IndexAlphaIsNth | app/packages/argon2_ffi/ios/Classes/argon2src/core.c:244-256 | the result is the block at that place in the order of computation, cyclically in the lane |
| Geometry.WindowEnumerated | app/packages/argon2_ffi/ios/Classes/argon2src/core.c:192-256 | the places below the area size enumerate exactly the set W of section 3.4.2 of RFC 9106 |
| Geometry.IndexAlphaInWindow | app/packages/argon2_ffi/ios/Classes/argon2src/core.c:189-257 | for every reachable position and 32-bit value the reference is in W, so never the current or the previous block |
| Geometry.WindowReachedExactlyWhen | app/packages/argon2_ffi/ios/Classes/argon2src/core.c:237-242 | all of W can be chosen if and only if W has at most 2^31 members |
| Geometry.OldestMissed | app/packages/argon2_ffi/ios/Classes/argon2src/core.c:237-242 | in a larger window the oldest member is never chosen |
| Geometry.LargestWindow | app/packages/argon2_ffi/ios/Classes/argon2src/core.c:237-242 | such a window occurs: in the second pass over one lane of 2^32-4 blocks a member is never chosen |
| Geometry.MemberReached | app/packages/argon2_ffi/ios/Classes/argon2src/core.c:237-242 | a pseudo-random value for any given member of a window of at most 2^31 |
| Context.AcceptedExactly | app/packages/argon2_ffi/ios/Classes/argon2src/core.c:388-513 | validate_inputs returns OK if and only if the limits hold in unbounded arithmetic, although `8 * lanes` is tested before `lanes` is bounded and can wrap |
| Context.FaultIsNamed | app/packages/argon2_ffi/ios/Classes/argon2src/core.c:388-513 | whichever single field of an acceptable context is spoilt, the code names it |
| Context.ProductCanWrap | app/packages/argon2_ffi/ios/Classes/argon2src/core.c:473-475 | a context with 8 blocks for 536870913 lanes passes that test, and is then refused for its lanes |
| BlaMka.OddInverseCorrect | app/packages/argon2_ffi/ios/Classes/argon2src/blake2/blamka-round-ref.h:25-29 | bit-by-bit lifting yields the inverse of any odd number modulo 2^n |
| BlaMka.UnFBlaMkaLeft | app/packages/argon2_ffi/ios/Classes/argon2src/blake2/blamka-round-ref.h:25-29 | fBlaMka(x, y) determines x for fixed y |
| BlaMka.UnFBlaMkaRight | app/packages/argon2_ffi/ios/Classes/argon2src/blake2/blamka-round-ref.h:25-29 | every 64-bit word is fBlaMka(x, y) for some x |
| BlaMka.HalfGInverse | app/packages/argon2_ffi/ios/Classes/argon2src/blake2/blamka-round-ref.h:33-36 | four of the assignments of G are undone by undoing them in reverse |
| BlaMka.GInverse | app/packages/argon2_ffi/ios/Classes/argon2src/blake2/blamka-round-ref.h:31-41 | the macro G has a two-sided inverse |
| BlaMka.RoundIsBijection | app/packages/argon2_ffi/ios/Classes/argon2src/blake2/blamka-round-ref.h:43-54 | BLAKE2_ROUND_NOMSG on any sixteen distinct words of a block is one-to-one and onto |
| BlaMka.BlaMkaCoherent | app/packages/argon2_ffi/ios/Classes/argon2src/blake2/blamka-round-ref.h:25-41 | the macro G is built from fBlaMka, exclusive or and rotation, and exclusive ors may be reordered: the assumption of the proofs about in-place mixing and fill_block holds of the C file's operations |
| BlaMka.GIsGB | app/packages/argon2_ffi/ios/Classes/argon2src/blake2/blamka-round-ref.h:31-41 | G is the eight lines of GB in section 3.6 of RFC 9106, with their rotations by 32, 24, 16 and 63 |
| Bits.XorBit | app/packages/argon2_ffi/ios/Classes/argon2src/core.c:66-71 | exclusive or adds each pair of bits modulo 2 |
| Bits.RotrBit | app/packages/argon2_ffi/ios/Classes/argon2src/blake2/blake2-impl.h:150-152 | rotation moves bit j + c, cyclically, to place j |
| Mixing.MixInverse | app/packages/argon2_ffi/ios/Classes/argon2src/blake2/blamka-round-ref.h:43-54 | any run of G steps is undone by the inverse steps in reverse, on both sides |
| Mixing.GInPlace | app/packages/argon2_ffi/ios/Classes/argon2src/blake2/blamka-round-ref.h:31-41 | the eight assignments change exactly the four named words, as G says |
| Mixing.RoundInPlace | app/packages/argon2_ffi/ios/Classes/argon2src/blake2/blamka-round-ref.h:43-54 | the eight lines in sequence are the eight G steps in sequence |
| Words.RotrInverse | app/packages/argon2_ffi/ios/Classes/argon2src/blake2/blake2-impl.h:150-152 | rotating on by the remaining distance restores the word |
| Words.Xor64Involutive | app/packages/argon2_ffi/ios/Classes/argon2src/core.c:66-71 | applying the same exclusive or twice restores the word |
| FillBlock.PermuteIsBijection | app/packages/argon2_ffi/ios/Classes/argon2src/ref.c:55-77 | the sixteen rounds are undone by their inverses, on both sides |
| FillBlock.BlaMkaPermutationIsBijection | app/packages/argon2_ffi/ios/Classes/argon2src/ref.c:55-77 | the permutation of 1024-byte blocks is one-to-one and onto |
| FillBlock.PermuteWords | app/packages/argon2_ffi/ios/Classes/argon2src/ref.c:55-77 | each loop of eight rounds in place is its 64 G steps |
| FillBlock.FillBlockInPlace | app/packages/argon2_ffi/ios/Classes/argon2src/ref.c:39-81 | the block left in next_block, also when the three blocks share a buffer |
| FillBlock.LoopsPermute | app/packages/argon2_ffi/ios/Classes/argon2src/ref.c:55-77 | the first loop applies P of section 3.6 of RFC 9106 to the eight rows of the 8 x 8 register matrix, the second to its columns |
| Permutation.RoundIsP | app/packages/argon2_ffi/ios/Classes/argon2src/blake2/blamka-round-ref.h:43-54 | the eight lines are P of section 3.6 of RFC 9106: G on the columns of a 4 x 4 matrix, then on its diagonals, stated by shearing the rows |
| Permutation.RoundOnOperands | app/packages/argon2_ffi/ios/Classes/argon2src/blake2/blamka-round-ref.h:43-54 | on sixteen distinct words of a block BLAKE2_ROUND_NOMSG is P of these words, and no other word changes |
| FillBlock.FillIsCompress | app/packages/argon2_ffi/ios/Classes/argon2src/ref.c:39-81 | the block is G(prev, ref) as section 3.5 of RFC 9106 defines it on that matrix, exclusive-ored onto the old block exactly when asked to |
| FillBlock.BlaMkaFill | app/packages/argon2_ffi/ios/Classes/argon2src/ref.c:39-81 | the same with the C file's word operations |
| FillBlock.NextAddresses | app/packages/argon2_ffi/ios/Classes/argon2src/ref.c:83-88 | increments the counter word and leaves G(0, G(0, input)) in the address block, although the second call overwrites its own input |
| FillBlock.XorBlock | app/packages/argon2_ffi/ios/Classes/argon2src/core.c:66-71 | word-wise exclusive or in place |
| Blake2b.State.constructor | app/packages/argon2_ffi/ios/Classes/argon2src/blake2/blake2b.c:91-117 | an accepted length starts with nothing absorbed; a refused one leaves a state that refuses further use |
| Blake2b.InitParam | app/packages/argon2_ffi/ios/Classes/argon2src/blake2/blake2b.c:73-88 | the parameter block loaded as eight words and folded into the initialisation vector |
| Blake2b.StartIs | app/packages/argon2_ffi/ios/Classes/argon2src/blake2/blake2b.c:91-164 | the start of section 3.3 of RFC 7693: digest and key length change the first word only |
| Rfc7693.DigestIsHash | app/packages/argon2_ffi/ios/Classes/argon2src/blake2/blake2b.c:57-330 | the digest is the one section 3.3 of RFC 7693 computes block by block from the front, for every key, message and length: padding, offset counter, final flag and the block of the key |
| Rfc7693.FirstChainIs | app/packages/argon2_ffi/ios/Classes/argon2src/blake2/blake2b.c:73-117 | h[0] starts as IV[0] ^ 0x01010000 ^ (kk << 8) ^ nn |
| Rfc7693.IVIsRoots | app/packages/argon2_ffi/ios/Classes/argon2src/blake2/blake2b.c:25-29 | the initialisation vector holds the first 64 bits of the fractions of the square roots of the first eight primes |
| Blake2b.State.Keyed | app/packages/argon2_ffi/ios/Classes/argon2src/blake2/blake2b.c:119-164 | the key padded to a block is absorbed first; a refused digest or key length leaves a state that refuses further use |
| Blake2b.State.Update | app/packages/argon2_ffi/ios/Classes/argon2src/blake2/blake2b.c:224-262 | whatever the cut, the state afterwards is the canonical one of the concatenation: chain value, two-word counter, and 1 to 128 bytes held back once input is non-empty |
| Blake2b.State.FirstBlock | app/packages/argon2_ffi/ios/Classes/argon2src/blake2/blake2b.c:241-250 | completing the buffered block compresses exactly the next 128 bytes of the concatenation |
| Blake2b.State.Final | app/packages/argon2_ffi/ios/Classes/argon2src/blake2/blake2b.c:264-292 | writes the digest of section 3.3 of RFC 7693 of everything absorbed; short output or a second call is refused without effect |
| Blake2b.CounterAdds | app/packages/argon2_ffi/ios/Classes/argon2src/blake2/blake2b.c:57-61 | the two-word addition is addition modulo 2^128 |
| Blake2b.LastBlock | app/packages/argon2_ffi/ios/Classes/argon2src/blake2/blake2b.c:278-281 | the held-back bytes padded with zeros are the last block of the padded message |
| Blake2b.HashPieces | app/packages/argon2_ffi/ios/Classes/argon2src/blake2/blake2b.c:224-292 | any list of updates gives the one-shot digest of their concatenation |
| Blake2b.HashOnce | app/packages/argon2_ffi/ios/Classes/argon2src/blake2/blake2b.c:294-330 | the one-shot function with or without a key is the digest of section 3.3 of RFC 7693; its length errors |
| LongHash.Blake2bLong | app/packages/argon2_ffi/ios/Classes/argon2src/blake2/blake2b.c:333-389 | for every length from 1 to 2^32-1 writes exactly that many bytes, those of H' in section 3.3 of RFC 9106; other lengths are refused |
| LongHash.LongDigestIs | app/packages/argon2_ffi/ios/Classes/argon2src/blake2/blake2b.c:333-389 | H' without counting halves: hash LE32(T) and A, and while more than 64 bytes are due emit half a digest and hash it again |
| LongHash.LongOutput | app/packages/argon2_ffi/ios/Classes/argon2src/blake2/blake2b.c:359-384 | the loop over half digests terminates with all of H' written |
| LongHash.MiddleOutput | app/packages/argon2_ffi/ios/Classes/argon2src/blake2/blake2b.c:371-378 | the loop ends with exactly ceil(T/32)-2 halves written, in order, and the digest the last one is made from in its buffer |
| LongHash.LastPiece | app/packages/argon2_ffi/ios/Classes/argon2src/blake2/blake2b.c:371-383 | the loop stops exactly after ceil(T/32)-2 halves, with 33 to 64 bytes left |
| LittleEndian.Store | app/packages/argon2_ffi/ios/Classes/argon2src/blake2/blake2-impl.h:82-118 | store32 and store64 write the little-endian bytes and nothing else |
| LittleEndian.EncodeAt | app/packages/argon2_ffi/ios/Classes/argon2src/blake2/blake2-impl.h:82-118 | byte i is the i-th least significant digit to base 256 |
| LittleEndian.DecodeEncode | app/packages/argon2_ffi/ios/Classes/argon2src/blake2/blake2-impl.h:48-118 | loading what was stored gives the word back |
| LittleEndian.EncodeDecode | app/packages/argon2_ffi/ios/Classes/argon2src/blake2/blake2-impl.h:48-118 | storing what was loaded gives the bytes back |
| LittleEndian.LoadStored | app/packages/argon2_ffi/ios/Classes/argon2src/core.c:73-85 | load_block undoes store_block |
| LittleEndian.StoreLoaded | app/packages/argon2_ffi/ios/Classes/argon2src/core.c:73-85 | store_block undoes load_block |
| Argon2.InitialHash | app/packages/argon2_ffi/ios/Classes/argon2src/core.c:538-610 | the fourteen updates hash the H0 string of section 3.2 of RFC 9106 |
| Argon2.SeedInjective | app/packages/argon2_ffi/ios/Classes/argon2src/core.c:549-607 | two different inputs never have the same H0 string: every field can be read back from it |
| Argon2.SeedLayout | app/packages/argon2_ffi/ios/Classes/argon2src/core.c:549-607 | the H0 string is p, T, m, t, v and y as four-byte words and then password, salt, secret and associated data, each after its length |
| Argon2.InputBlockIs | app/packages/argon2_ffi/ios/Classes/argon2src/ref.c:109-118 | the input block is r, l, sl, m', t, y and the counter as eight-byte words and 968 zero bytes |
| Argon2.FirstTwoBlocks | app/packages/argon2_ffi/ios/Classes/argon2src/core.c:515-536 | B[l][0] and B[l][1] are H'^1024 of H0, the column 0 or 1 and the lane as four-byte words |
| Argon2.FillFirstBlocks | app/packages/argon2_ffi/ios/Classes/argon2src/core.c:515-536 | columns 0 and 1 of every lane become H'(H0, column, lane), and nothing else changes |
| Argon2.StoredByFillBlock | app/packages/argon2_ffi/ios/Classes/argon2src/ref.c:181-192 | the block the filling specification stores is the one fill_block leaves |
| Argon2.AddressedByNextAddresses | app/packages/argon2_ffi/ios/Classes/argon2src/ref.c:83-88 | the address words of the filling specification are those next_addresses computes in place |
| Argon2.LastColumnIsParity | app/packages/argon2_ffi/ios/Classes/argon2src/core.c:155-187 | each bit of the block that is hashed is the parity of that bit over the last blocks of all lanes |
| Argon2.Finalize | app/packages/argon2_ffi/ios/Classes/argon2src/core.c:155-187 | the tag is H' of the exclusive or of the last blocks of all lanes |
| Argon2.Argon2Ctx | app/packages/argon2_ffi/ios/Classes/argon2src/argon2.c:39-98 | returns the code of validate_inputs and, when OK, writes the Argon2 tag, whatever the allocated memory held |
| Argon2.TagUnderAnySchedule | app/packages/argon2_ffi/ios/Classes/argon2src/core.c:376-386 | any number of threads and any schedule that finishes gives the same tag |
| Argon2.TagUnderAnyWordSchedule | app/packages/argon2_ffi/ios/Classes/argon2src/core.c:376-386 | so does any finished interleaving of single word accesses |
| Base64.LetterInTable | app/packages/argon2_ffi/ios/Classes/argon2src/encoding.c:83-89 | Table 1 of RFC 4648: letters, small letters, digits, + and / |
| Base64.GroupIsTheSameBits | app/packages/argon2_ffi/ios/Classes/argon2src/encoding.c:133-140 | three bytes and their four groups of six bits are the same 24 bits, most significant first |
| Base64.ByteToCharIsLetter | app/packages/argon2_ffi/ios/Classes/argon2src/encoding.c:83-89 | the branch-free expression is Table 1 of RFC 4648 for all values below 64 |
| Base64.CharToByteIsValue | app/packages/argon2_ffi/ios/Classes/argon2src/encoding.c:94-102 | its inverse for all characters; a negative `char` is read as 63 |
| Base64.ToBase64 | app/packages/argon2_ffi/ios/Classes/argon2src/encoding.c:112-146 | succeeds exactly when text and terminator fit and then writes the encoding and a zero and nothing else, although the accumulator is never masked |
| Base64.FromBase64 | app/packages/argon2_ffi/ios/Classes/argon2src/encoding.c:161-200 | what is accepted, where it stops and which bytes are written, capacity and left-over bits included |
| Base64.PendingStep | app/packages/argon2_ffi/ios/Classes/argon2src/encoding.c:133-140 | only the low bits of the wrapping accumulator matter while encoding |
| Base64.ByteStep | app/packages/argon2_ffi/ios/Classes/argon2src/encoding.c:178-186 | only the low bits of the wrapping accumulator matter while decoding |
| Base64.DecodeOfEncode | app/packages/argon2_ffi/ios/Classes/argon2src/encoding.c:112-200 | decoding the encoding of any byte string, anywhere in a text, yields it and stops right behind it |
| Base64.EncodeOfDecode | app/packages/argon2_ffi/ios/Classes/argon2src/encoding.c:161-200 | an accepted text is the encoding of its bytes if and only if `char` is unsigned or no byte is above 127 |
| Base64.HighBytesAccepted | app/packages/argon2_ffi/ios/Classes/argon2src/encoding.c:74-102 | four bytes 0x80 in a signed `char` are accepted |
| Decimal.DecodeDecimal | app/packages/argon2_ffi/ios/Classes/argon2src/encoding.c:209-236 | accepts exactly the non-empty digit strings without leading zero whose number is at most ULONG_MAX, for any ULONG_MAX |
| Decimal.AddDigit | app/packages/argon2_ffi/ios/Classes/argon2src/encoding.c:221-229 | the two overflow tests refuse a digit exactly when the number would exceed the maximum |
| Decimal.NumberOfPrint | app/packages/argon2_ffi/ios/Classes/argon2src/encoding.c:386-391 | printing and reading back is the identity |
| Decimal.PrintOfNumber | app/packages/argon2_ffi/ios/Classes/argon2src/encoding.c:231-235 | an accepted string is exactly what is printed for its number |
| Decimal.NumLen | app/packages/argon2_ffi/ios/Classes/argon2src/encoding.c:455-462 | the number of digits printed |
| HashString.HashTextIs | app/packages/argon2_ffi/ios/Classes/argon2src/encoding.c:373-438 | the text literally: $argon2id$v=, the version, $m=, ,t=, ,p=, $ and $ with the numbers, salt and digest between |
| HashString.EncodeString | app/packages/argon2_ffi/ios/Classes/argon2src/encoding.c:373-438 | OK exactly when the context is valid and text and terminator fit; then exactly these are written |
| DecodeString.DecodeString | app/packages/argon2_ffi/ios/Classes/argon2src/encoding.c:258-371 | the parser with its buffers computes the decoding the lemmas are about, every error code included |
| DecodeString.DecodingOfHashText | app/packages/argon2_ffi/ios/Classes/argon2src/encoding.c:258-438 | the text of any valid context decodes, under its type, to its version, costs, lanes, salt and digest |
| DecodeString.DecodingOfOldText | app/packages/argon2_ffi/ios/Classes/argon2src/encoding.c:329-331 | the same text without its version decodes to version 0x10 |
| DecodeString.OtherTypeRefused | app/packages/argon2_ffi/ios/Classes/argon2src/encoding.c:320-327 | under each other type it is refused, although "argon2i" begins "argon2id" |
| DecodeString.HashTextOfDecoding | app/packages/argon2_ffi/ios/Classes/argon2src/encoding.c:258-438 | an accepted text is what encode_string prints for the decoded context if and only if it states its version and holds no byte above 127 in a signed `char` |
| HashVerify.EncodedLen | app/packages/argon2_ffi/ios/Classes/argon2src/argon2.c:447-452 | the sum argon2_encodedlen returns |
| HashVerify.HashTextLength | app/packages/argon2_ffi/ios/Classes/argon2src/encoding.c:373-438 | the exact length of the text |
| HashVerify.EncodedLenExact | app/packages/argon2_ffi/ios/Classes/argon2src/argon2.c:447-452 | argon2_encodedlen is the least buffer length encode_string accepts if and only if the version has two digits, as 16 and 19 do |
| HashVerify.LongVersionMiscounted | app/packages/argon2_ffi/ios/Classes/argon2src/argon2.c:447-452 | validate_inputs accepts a context of version 100, for which the length is one too short |
| HashVerify.Compare | app/packages/argon2_ffi/ios/Classes/argon2src/argon2.c:239-247 | zero if and only if the two byte strings are equal |
| HashVerify.Hash | app/packages/argon2_ffi/ios/Classes/argon2src/argon2.c:100-177 | the first failing check decides the code; the raw buffer, when given, receives the digest exactly when the inputs are valid, also when the encoding then fails; the encoded buffer holds its text |
| HashVerify.Verify | app/packages/argon2_ffi/ios/Classes/argon2src/argon2.c:249-354 | OK if and only if both lengths fit and the string decodes under the type and carries the digest of this password; a mismatch if and only if it carries another |
| HashVerify.VerifyAcceptsHash | app/packages/argon2_ffi/ios/Classes/argon2src/argon2.c:249-313 | accepts every string argon2_hash encodes for the password if and only if it is at most 2^32-1 characters long |
| HashVerify.VerifyOtherPassword | app/packages/argon2_ffi/ios/Classes/argon2src/argon2.c:315-354 | the string hashed for one password is refused with a mismatch under another exactly when the two have different digests |
| HashVerify.HashParameters | app/packages/argon2_ffi/ios/Classes/argon2src/argon2.c:128-146 | which argument is hashed and printed where |
| HashVerify.LongestHashRefused | app/packages/argon2_ffi/ios/Classes/argon2src/argon2.c:268-271 | such strings exist: the text of any digest of 2^32-1 bytes is longer and is refused |
| HashVerify.VerifyAcceptsArgon2Hash | app/packages/argon2_ffi/ios/Classes/argon2src/argon2.c:249-313 | the same for the Argon2 tag itself |
| HashVerify.VerifyRefusesOtherType | app/packages/argon2_ffi/ios/Classes/argon2src/argon2.c:289-292 | no other type accepts it, whatever the password |
| RateLimit.RateLimiter.Allow | server/internal/api/ratelimit.go:39-68 | one call admits or refuses and changes the buckets as the run specification says |
| RateLimit.RateLimiter.Gc | server/internal/api/ratelimit.go:71-78 | removes exactly the buckets idle for more than two windows |
| RateLimit.RateBound | server/internal/api/ratelimit.go:39-78 | over any run, across collections, one IP is admitted at most limit + 1 + limit * T / window times in an interval of length T |
| RateLimit.LedgerStep | server/internal/api/ratelimit.go:39-68 | the per-IP account behind that bound is kept by every call |
| RateLimit.SweptLedger | server/internal/api/ratelimit.go:71-78 | a collected bucket has been idle long enough to pay for its successor's uncharged first request |
| RateLimit.FreshBurst | server/internal/api/ratelimit.go:48-53 | the bound is reached: an IP without a bucket, or whose bucket this very call collects, gets exactly limit + 1 requests through at one instant |
| RateLimit.DocumentedBoundExactlyWhen | server/internal/api/ratelimit.go:10-12 | from a request on, the documented bound of limit + limit * T / window holds for all later requests and all T if and only if its IP has a bucket that the call does not collect |
| RateLimit.RefusedOnlyWhenSpent | server/internal/api/ratelimit.go:55-67 | a request is refused only if since some moment more than limit - 1 + limit * T / window requests of that IP were admitted |
| RateLimit.ForgottenExactlyWhen | server/internal/api/ratelimit.go:43-78 | other buckets stay as they are, except that those idle for more than two windows go when half a window has passed since the last collection |
| RateLimit.NeverRefused | server/internal/api/ratelimit.go:55-67 | an IP whose requests are at least window / limit apart is never refused |
| RateLimit.RecentlySeen | server/internal/api/ratelimit.go:43-46 | after every call of a run each stored bucket was seen within the last two and a half windows |
| Sessions.Reachable | server/internal/api/handlers_auth.go:85-186 | every state reached from an empty database has non-empty salt, authentication hash, blob and nonce, a wrapped key, no invite and revision at least 1 for active users; invite, revision 0 and no session for pending ones; a wrapped recovery key, empty or not, wherever there is a recovery hash |
| Accounts.StepInv | server/internal/api/handlers_auth.go:85-293 | every handler keeps that invariant |
| Accounts.KeysHeldExactlyWhen | server/internal/api/handlers_vault.go:50-96 | after a request the wrapped key of every active user and the wrapped recovery key of every user with a recovery hash are still non-empty, if and only if it is not a vault write that passes all checks of the middleware, the handler and the statement with that key field decoding to no bytes |
| Accounts.SetupInv | server/internal/api/handlers_auth.go:85-186 | activation and registration keep it, the new session included |
| Accounts.RecoverInv | server/internal/api/handlers_auth_ops.go:146-182 | recovery keeps it, although it does not look at the account's status |
| Accounts.ParseMaterial | server/internal/api/handlers_auth_ops.go:24-61 | accepted material has a non-empty authentication hash, salt and wrapped key, and a wrapped recovery key, never empty, exactly when it has a recovery hash, which may be empty |
| Sessions.KeysHeldOnRuns | server/internal/api/handlers_vault.go:50-96 | from an empty database the wrapped keys are non-empty in every state of a run if and only if no event is such a write |
| Sessions.KeysEmptied | server/internal/api/handlers_vault.go:67-82 | a registration followed by one vault write whose key fields decode to no bytes empties both |
| Sessions.RecoveryPayloadFilled | server/internal/api/handlers_auth_ops.go:131-134 | on runs without such a write the recovery payload always carries a non-empty wrapped recovery key, so the no_recovery reply is not given however empty BLOBs are read back |
| Credentials.LoginExactlyWhen | server/internal/api/handlers_auth.go:253-279 | a login succeeds if and only if some active row has that name and holds exactly the bytes sent as its authentication hash; then it adds that one session, otherwise nothing changes |
| Credentials.RefusalsLookAlike | server/internal/api/handlers_auth.go:260-275 | an unknown name and a wrong hash get the same reply; pending and disabled users are told so |
| Credentials.SessionAcceptedExactlyWhen | server/internal/api/middleware.go:86-104 | a token opens the vault if and only if its session is stored, has not expired and belongs to an active user |
| Credentials.SessionLives | server/internal/api/handlers_auth.go:296-307 | a session just started is accepted for the configured time and no longer |
| Credentials.ChangePasswordExactlyWhen | server/internal/api/handlers_auth_ops.go:68-97 | needs a live session, the old authentication hash and good material; then exactly the material of that row changes |
| Credentials.RecoverExactlyWhen | server/internal/api/handlers_auth_ops.go:146-182 | needs the stored recovery hash of that name and good material; then exactly the material of that row changes |
| Credentials.PayloadExactlyWhen | server/internal/api/handlers_auth_ops.go:115-144 | the encrypted vault is given out exactly for the stored recovery hash |
| Credentials.SetupExactlyWhen | server/internal/api/handlers_auth.go:85-186 | succeeds exactly for complete requests with the invite of the pending row of that name, or without one when registration is open and the name free; the row then holds what was sent |
| Credentials.AcceptedExactlyWhenGood | server/internal/api/handlers_auth_ops.go:24-61 | material is accepted exactly within the limits on the key derivation and with no empty part, and every part reaches the row |
| Credentials.LoginAfterSetup | server/internal/api/handlers_auth.go:85-279 | after a setup the authentication hash sent with it, and no other, logs in |
| Credentials.LoginAfterChange | server/internal/api/handlers_auth_ops.go:68-97 | the same after a password change |
| Credentials.LoginAfterRecover | server/internal/api/handlers_auth_ops.go:146-182 | the same after a recovery, if the account is active |
| Credentials.RecoverBurns | server/internal/api/handlers_auth_ops.go:169-181 | after a recovery only the new recovery hash, if one was sent, recovers the account |
| Credentials.LoginAfterRun | server/internal/api/handlers_auth.go:85-293 | after any run without a setup, change, recovery, deletion or disabling of that user exactly the same hash logs in as before |
| Credentials.LastInviteOnly | server/internal/store/store.go:168-185 | after a reset only the new invite opens the account |
| Credentials.InviteOfNewUser | server/internal/store/store.go:131-144 | a new pending user is opened by exactly the invite given out |
| Credentials.DisabledIsRefused | server/internal/store/store.go:286-293 | a disabled user cannot log in and no session of that user is accepted |
| Credentials.AdministrationExactlyWhen | server/internal/api/handlers_admin.go:86-155 | users are created under free names of admissible length, deleted and disabled if they exist, and reset if they are pending |
| Credentials.VaultPutExactlyWhen | server/internal/api/handlers_vault.go:50-96 | a vault write is accepted exactly for a live session, complete fields and the current revision; then the row holds what was sent |
| Sessions.RevokedNeverAuthenticates | server/internal/api/middleware.go:86-104 | a token that was issued and is no longer stored is refused by every authenticated request of every later state |
| Sessions.ChangePasswordRevokes | server/internal/api/handlers_auth_ops.go:68-97 | a password change leaves the user exactly the session that made it |
| Sessions.RecoverRevokes | server/internal/api/handlers_auth_ops.go:169-181 | recovery leaves the user exactly the session it starts |
| Sessions.UpdateAuthRevokes | server/internal/store/store.go:318-352 | the statement leaves the user no session if and only if the recovery key is burned or there was none |
| Sessions.AllRevoked | server/internal/api/handlers_auth.go:281-293 | logging out everywhere and deleting a user leave no session of that user |
| Sessions.NoRecoveryUnreachable | server/internal/api/handlers_auth_ops.go:131-134 | a wrapped recovery key is stored, empty or not, whenever the recovery hash matches: the no_recovery reply is never given where an empty BLOB is read back as non-nil |
| Sessions.OthersUntouched | server/internal/api/handlers_auth.go:85-293 | no request changes the row of a user it is not about or ends that user's unexpired sessions |
| Sessions.AuthKeepsVaults | server/internal/store/store.go:321-352 | logging in or out, changing or recovering a password never change blob, nonce or revision of any user |
| Sessions.IdsNeverReused | server/internal/store/store.go:17-36 | the id of a deleted user is never given out again |
| VaultCas.AcceptedWritesChain | server/internal/store/store.go:300-316 | over every interleaving of store statements the accepted writes have base revisions r, r+1, ...; the revision counts them and the vault is the last one |
| VaultCas.OneWritePerRevision | server/internal/store/store.go:300-316 | at most one write succeeds per base revision |
| VaultCas.NoLostUpdate | server/internal/api/handlers_vault.go:82-95 | an accepted write replaces exactly the vault its client had read |
| VaultCas.RevisionSinceRegistration | server/internal/store/store.go:146-165 | from a direct registration on the revision is 1 plus the accepted writes |
| VaultCas.RevisionSinceActivation | server/internal/store/store.go:255-316 | from activation on the revision is 1 plus the accepted writes |
| VaultCas.StatementKeepsVault | server/internal/store/store.go:131-429 | no other statement changes blob, nonce or revision |
| VaultCas.NothingAfterDeletion | server/internal/store/store.go:241-252 | no write to a deleted user is ever accepted |
| Server.Database.UpdateVault | server/internal/store/store.go:300-316 | compare-and-swap: the new revision, or a conflict and no change |
| Server.Database.UpdateAuthMaterial | server/internal/store/store.go:321-352 | the rewritten columns, and the sessions deleted when asked to |
| Server.Database.GetUserByUsername | server/internal/store/store.go:187-194 | the scan finds the one user of that name |
| Server.Database.ActivateUser | server/internal/store/store.go:254-277 | only a pending row is activated, and its invite is cleared |
| Server.Database.InsertUser | server/internal/store/store.go:146-165 | a taken name is refused, otherwise a new id is used |
| Server.Database.DeleteUser | server/internal/store/store.go:241-252 | the sessions go with the row |
| Server.Database.GetUserBySessionToken | server/internal/store/store.go:371-407 | an expired session is removed and not found |
| Server.Database.DeleteOtherSessions | server/internal/store/store.go:421-429 | all sessions of the user but the given one |
| Server.Handlers.Setup | server/internal/api/handlers_auth.go:85-186 | checks in the order of the handler; a valid invite activates the pending row of that name, an empty one registers a new row when allowed, and only then a session starts; a request refused by a check leaves the database as it was |
| Server.Handlers.Login | server/internal/api/handlers_auth.go:253-279 | a session for the active user of that name and hash; unknown name and wrong hash get the same reply; no row ever changes |
| Server.Handlers.Recover | server/internal/api/handlers_auth_ops.go:146-182 | with the right recovery hash all material is replaced, every session of the user deleted and one started under the new token; a refusal changes nothing |
| Server.Handlers.Serve | server/internal/api/middleware.go:86-104 | a handler runs only for the active owner of an unexpired session; an expired session is deleted even though the request is refused |
| Server.Handlers.ChangePassword | server/internal/api/handlers_auth_ops.go:68-97 | with the old hash verified and the new material valid, the material is replaced and every other session of the user ends |
| Server.Handlers.VaultPut | server/internal/api/handlers_vault.go:50-96 | four field checks, then one compare-and-swap: base revision plus one, or a conflict and no change; absent keys keep the stored ones |
| WebAuthn.ConvertDerToRaw | app/android/app/src/main/kotlin/dev/passone/passone_app/WebAuthn.kt:373-387 | the running index computes the parse the lemmas are about; leaving the array or a wrong tag is an exception |
| WebAuthn.ConvertedExactlyWhen | app/android/app/src/main/kotlin/dev/passone/passone_app/WebAuthn.kt:373-387 | without an exception exactly the sequences of two integers are converted, and r is kept modulo 2^256 |
| WebAuthn.EncodedExactlyWhen | app/android/app/src/main/kotlin/dev/passone/passone_app/WebAuthn.kt:335-357 | encoding throws exactly when there are fewer than 64 bytes or one of the numbers is zero |
| WebAuthn.DerToRawIs | app/android/app/src/main/kotlin/dev/passone/passone_app/WebAuthn.kt:362-387 | any DER form of (r, s) in range, however padded, becomes the 64 bytes of (r, min(s, n - s)) |
| WebAuthn.RawToDerIs | app/android/app/src/main/kotlin/dev/passone/passone_app/WebAuthn.kt:335-357 | the 64 bytes of (r, s) in range become the minimal DER encoding |
| WebAuthn.ContentsShortest | app/android/app/src/main/kotlin/dev/passone/passone_app/WebAuthn.kt:341-357 | derInt writes a positive integer in the shortest form of section 8.3.2 of X.690 |
| WebAuthn.ShortestUnique | app/android/app/src/main/kotlin/dev/passone/passone_app/WebAuthn.kt:341-357 | there is only one such form |
| WebAuthn.MinimalDerLength | app/android/app/src/main/kotlin/dev/passone/passone_app/WebAuthn.kt:338-338 | the length byte is the length, in the one-byte form |
| WebAuthn.TranscodeIsMinimal | app/android/app/src/main/kotlin/dev/passone/passone_app/WebAuthn.kt:335-387 | through raw and back any DER form becomes the minimal one of (r, min(s, n - s)) |
| WebAuthn.TranscodeIdempotent | app/android/app/src/main/kotlin/dev/passone/passone_app/WebAuthn.kt:335-387 | doing it twice changes nothing |
| WebAuthn.RawRoundTrip | app/android/app/src/main/kotlin/dev/passone/passone_app/WebAuthn.kt:335-387 | raw survives the way through DER if and only if its s is low |
| WebAuthn.FixSizeValue | app/android/app/src/main/kotlin/dev/passone/passone_app/WebAuthn.kt:135-144 | trimming or padding keeps the number modulo 256^size |
| WebAuthn.FixSizeCopy | app/android/app/src/main/kotlin/dev/passone/passone_app/WebAuthn.kt:135-144 | the copy computes that trimming or padding |
| WebAuthn.WriteDerInt | app/android/app/src/main/kotlin/dev/passone/passone_app/WebAuthn.kt:341-357 | skipping leading zeros and adding a sign byte; a zero number throws |
| WebAuthn.ToByteArrayValue | app/android/app/src/main/kotlin/dev/passone/passone_app/WebAuthn.kt:366-366 | the shortest two's complement form of a non-negative number denotes it |

## Left out

- Schedule.ScheduleIndependence: is about runs in which every thread is created and joined successfully; the failure path of fill_memory_blocks_mt, which joins threads a second time, is not modelled.
- WordSchedule.WordScheduleIndependence: word accesses are atomic and sequentially consistent; joins order the slices.
- Blake2b: the compression function blake2b_compress is a parameter, `last_node` is not modelled, and null pointers are not represented.
- Argon2.Argon2Ctx: runs the single-threaded filler; the multi-threaded one is covered by Argon2.TagUnderAnySchedule. Allocation failure, wiping of memory, the password-clearing flags and an unknown type number are not modelled.
- FillSegment.FillSegment: works on an array of block values; that fill_block and next_addresses compute these values in place, aliasing included, is proved in FillBlock and linked by Argon2.StoredByFillBlock and Argon2.AddressedByNextAddresses.
- Context.ValidateInputs: is for 64-bit pointers, where the memory limit is 2^32-1 blocks; a null context is not represented.
- Base64.FromBase64: texts are taken up to their terminating zero, which the text itself does not contain.
- HashVerify.Hash: allocation failure and the wiping of the buffers, of the encoded one after a failed encoding too, are not modelled.
- DecodeString.DecodeString: the malloc'ed buffers of argon2_verify are taken to exist, also for the empty string.
- HashVerify.EncodedLen: sums in `size_t` are unbounded here; 64-bit lengths cannot reach the bound.
- RateLimit.RateLimiter.Allow: tokens are real numbers, so rounding of the floats is not modelled; the mutex makes calls atomic, which the order of a run stands for.
- RateLimit.RateBound: needs a limit and window of at least 1 and a clock that does not go back.
- Sessions.NoRecoveryUnreachable: takes an empty BLOB to be stored as such and read back as non-nil, which is up to the database driver; Sessions.RecoveryPayloadFilled does not depend on how it is read back.
- Sessions.Reachable: steps are whole handlers; interleaving of the statements of two handlers is modelled only for the vault, in VaultCas. The statement that only records the last login is left out, and user names are taken as already trimmed.
- Accounts.Handle: a request is modelled after JSON and Base64 decoding; the CLI's reset-invite is the same statement as the handler's, found by name.
- Server.Handlers: handlePrelogin, which only reads, is not modelled; the admin handlers and handleRecoverPayload, which run one statement or only read, have no method; their steps are part of Accounts.Handle, whose limit on the length of a name counts characters.
- WebAuthn.DerToRaw: an exception is the absence of a result.
- The SIMD rounds in `blamka-round-opt.h`, known-answer output and memory wiping.
- The TLS certificates, HTTP routing, logging and SQLite itself: library calls.
- The Flutter application, sync and conflict merging, Android autofill and credential services, CBOR and CSV writing.
