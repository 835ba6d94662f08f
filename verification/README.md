# Keylight C++ client: a verified model

Keylight is a licensing client in headers only: it verifies Ed25519-signed leases, keeps them in an
encrypted store, decides from them what state the application is in, and tells listeners when that
state changes. This project models its hardest parts in Dafny and proves what they promise.

- **Field and curve arithmetic** (`Field25519`, `Fields`, `Curve`, `Affine`, `Scalars`, `Edwards`,
  `ScalarL`, `Ed25519`, `Signing`). The limb arrays are updated in place as in the source, every
  64-bit intermediate is shown to fit, and each routine is tied to integer arithmetic modulo 2^255-19
  or modulo the group order. That the addition formula keeps the curve, is the affine law and has no
  exceptions is proved algebraically, and the verdict on a signature is tied to the equation of
  RFC 8032 section 5.1.7.
- **Streaming hashes** (`Sha2`, `Hashers`), **Poly1305** (`PolyMath`, `Poly1305`), the **AEAD**
  (`Bits`, `ChaCha`, `Aead`) and the **encrypted store** (`Store`), whose disk is a map of paths and
  whose process may die between any two disk operations.
- **Event delivery** (`Delivery`, `Listeners`) and **background threads** (`Workers`) as transition
  systems over any number of threads, one step for each critical section, with listeners calling
  back in.
- **The licensing state machine** (`States`, `Licensing`, `Answers`, `Client`): an object with the
  client's fields, proved against functions on a snapshot; the theorems are about whole runs of calls
  and about what each call answers, knows and stores.
- **Serialiser, parser and encodings** (`Json`, `JsonParser`, `Spellings`, `Leases`, `Blob`, `Wire`,
  `Payload`, `Base64`, `Sextets`, `Verifier`, `Trust`) and the **include walk** of the single-header
  generator (`Amalgamate`). The texts the parser accepts are characterised exactly, with their meaning.

`Limbs` and `Modular` hold the shared integer arithmetic, `Collections` what several components use.
Subset types `byte`, `u32`, `u64` and `i64` make every assignment an obligation that nothing
overflowed; where the source wraps or truncates, the model writes the modulus out.

These results say where the code falls short of a simpler claim, each with the exact condition or
a concrete run:

- The one-time import keeps the plaintext contents through any number of loads cut anywhere, exactly
  unless the legacy file is where the temporary file goes, it is read short, or bytes are lost when
  the stream is closed, which `save` does not notice (`Store.LegacySurvives`, `Store.LosingLoad`).
- A revoke that the store refuses is undone by a relaunch while the stored lease is good
  (`Licensing.LostRevoke`).
- A trial start stamped at clock zero is forgotten by a relaunch (`Licensing.StampSurvives`).
- A listener that starts validation while the destructor waits leaves a worker nobody joins
  (`Workers.LateStart`).
- The comment on `hasEntitlement` asks the feature gate to agree with `state()`. They do until a
  call meets a guard of its own: the end of the offline grace, a reply with an untrusted lease or one
  of another status, or a stored lease whose anchor fails (`Licensing.PartsExactly`,
  `Licensing.GateKeepsStep`).
- The JSON reader accepts more than RFC 8259: leading zeros, fractions and exponents without digits,
  raw control characters in strings, and a lone second half of a surrogate pair. What it accepts, and
  as what, is stated exactly (`Spellings.ParseExactly`).
- The amalgamation is in topological order exactly if no two headers include each other, when none
  comes to nothing (`Amalgamate.TopologicalExactly`).

`dafny verify dfyconfig.toml` checks the whole project.

## Model

| member | source | states |
|---|---|---|
| `Field25519.GfCar` | include/keylight/ed25519.hpp:179-187 | carrying in place keeps the element modulo p and gives the limbs of the fixed carry `Car`, with no 64-bit overflow for any in-bound input |
| `Field25519.CarKeepsElem` | include/keylight/ed25519.hpp:179-187 | the carry of any limbs, negative ones included, denotes the same element modulo 2^255-19 |
| `Field25519.CarMid` | include/keylight/ed25519.hpp:179-187 | after the second carry of a product every limb is back within the bound that all point formulas start from |
| `Field25519.CarTight` | include/keylight/ed25519.hpp:201-202 | a further carry brings limbs within that bound to sixteen-bit digits |
| `Field25519.GfMul` | include/keylight/ed25519.hpp:244-252 | the output denotes the product modulo p, also when it is one or both of the inputs; bounds in give the tighter bounds out, and no 64-bit intermediate overflows |
| `Field25519.Convolve` | include/keylight/ed25519.hpp:244-249 | the 31 columns denote the exact integer product |
| `Field25519.FoldColumns` | include/keylight/ed25519.hpp:249 | folding the upper columns 38-fold keeps the value modulo p |
| `Field25519.GfSq` | include/keylight/ed25519.hpp:253 | squaring in place denotes the square modulo p |
| `Field25519.GfAdd` | include/keylight/ed25519.hpp:238-240 | the sum modulo p, with any aliasing |
| `Field25519.GfSub` | include/keylight/ed25519.hpp:241-243 | the difference modulo p, with any aliasing |
| `Field25519.MaskedSwap` | include/keylight/ed25519.hpp:190-197 | the masked exclusive-or of two words swaps them for bit 1 and keeps them for bit 0 |
| `Field25519.GfCSwap` | include/keylight/ed25519.hpp:190-197 | both arrays exchanged or both kept, according to the bit |
| `Field25519.Normalise` | include/keylight/ed25519.hpp:201-202 | three carries bring any in-bound limbs to sixteen-bit digits of the same element |
| `Field25519.TwoSubtractionsSuffice` | include/keylight/ed25519.hpp:203-213 | a sixteen-digit value less than 2^256 is below p after subtracting p at most twice |
| `Field25519.GfPack` | include/keylight/ed25519.hpp:199-218 | the bytes are the unique representative of the element in [0, p) |
| `Field25519.GfNeq` | include/keylight/ed25519.hpp:220-227 | zero exactly when the two limb arrays denote the same element |
| `Field25519.GfPar` | include/keylight/ed25519.hpp:228-231 | the parity of the canonical representative |
| `Field25519.GfUnpack` | include/keylight/ed25519.hpp:232-236 | the element of the low 255 bits |
| `Field25519.Pow2523Exponent` | include/keylight/ed25519.hpp:256-265 | the square-and-multiply pattern that skips round 1 has the exponent (p-5)/8 |
| `Field25519.InvExponent` | include/keylight/ed25519.hpp:267-276 | the pattern that skips rounds 2 and 4 has the exponent p-2 |
| `Field25519.GfPow2523` | include/keylight/ed25519.hpp:256-265 | the output is the input to the power (p-5)/8 modulo p |
| `Field25519.GfInv` | include/keylight/ed25519.hpp:267-276 | the output is the input to the power p-2 modulo p |
| `Curve.AddKeepsCurve` | include/keylight/ed25519.hpp:282-302 | the unified addition formula of RFC 8032 section 5.1.4 takes two points of the curve, equal or not, to a point of the curve with XY = ZT |
| `Curve.SumEquation` | include/keylight/ed25519.hpp:282-302 | the curve equation of the sum follows from those of the summands, over any modulus and any d |
| `Curve.RootOnCurve` | include/keylight/ed25519.hpp:343-372 | a square root of (y^2-1)/(dy^2+1) gives a point of the curve |
| `Curve.NegatedRoot` | include/keylight/ed25519.hpp:367-369 | the negated root squares to the same and has the other parity, zero excepted |
| `Curve.EitherRootOnCurve` | include/keylight/ed25519.hpp:366-371 | whichever sign is chosen the decompressed point is on the curve |
| `Curve.AddIsAffineLaw` | include/keylight/ed25519.hpp:282-302 | the sum is (x1 y2 + x2 y1)/(1 + d x1 x2 y1 y2) and (y1 y2 + x1 x2)/(1 - d x1 x2 y1 y2), cross-multiplied |
| `Curve.NoPole` | include/keylight/ed25519.hpp:282-302 | over a modulus without zero divisors, with -1 a square and d none, neither denominator vanishes for two points with Z nonzero |
| `Curve.AddKeepsProper` | include/keylight/ed25519.hpp:282-302 | so the sum of two curve points with Z nonzero is one: the formula has no exceptions |
| `Curve.ScalarMultiple` | include/keylight/ed25519.hpp:311-326 | the ladder on a curve point with Z nonzero ends on one, at [s]Q in every associative reading of the addition of such points |
| `Scalars.LadderInvariant` | include/keylight/ed25519.hpp:319-325 | after each rung the two points are [n]Q and [n+1]Q, n being the bits read so far, for any associative operation with identity |
| `Scalars.LadderMultiplies` | include/keylight/ed25519.hpp:311-326 | the full ladder ends at [s]Q for every 32-byte scalar |
| `Scalars.TopIsValue` | include/keylight/ed25519.hpp:319-320 | the bits the ladder reads spell the little-endian value of the scalar |
| `Edwards.Constants` | include/keylight/ed25519.hpp:152-162 | d = -121665/121666, the doubled constant and the square root of -1 satisfy their defining equations modulo p |
| `Edwards.PtAdd` | include/keylight/ed25519.hpp:282-302 | the four coordinates are those of the addition formula, also for p added to itself, and every limb bound is re-established |
| `Edwards.PtCSwap` | include/keylight/ed25519.hpp:305-308 | the two points exchanged or kept |
| `Edwards.PtScalarMult` | include/keylight/ed25519.hpp:311-326 | the in-place ladder leaves the point the specification ladder ends at |
| `Edwards.CheckRoot` | include/keylight/ed25519.hpp:361-366 | true exactly when x^2 v = u modulo p |
| `Edwards.PtUnpackNeg` | include/keylight/ed25519.hpp:343-372 | succeeds exactly when one of the two candidates is a root; then the point is on the curve, with the encoded y and the x whose parity is not the encoded sign |
| `Fields.CandidateSquare` | include/keylight/ed25519.hpp:347-362 | the candidate squared misses u/v by the factor (u v^7)^((p-1)/4) |
| `Fields.CandidateWorks` | include/keylight/ed25519.hpp:347-366 | given Fermat and no zero divisors that factor is 1 or -1 whenever u/v is a square, so one of the two candidates is a root |
| `Edwards.RootIsFound` | include/keylight/ed25519.hpp:343-366 | over a prime modulus decompression finds a root for y exactly if y has one |
| `Edwards.PtPack` | include/keylight/ed25519.hpp:375-382 | the bytes hold the affine y with the parity of the affine x in the top bit |
| `Edwards.EncodesAffine` | include/keylight/ed25519.hpp:375-382 | over a prime modulus the inversion by a power is the inverse of a nonzero Z |
| `Ed25519.BaseOnCurve` | include/keylight/ed25519.hpp:164-170 | the base point of the two tables lies on the curve |
| `Ed25519.PtScalarBase` | include/keylight/ed25519.hpp:329-338 | the ladder on the base point |
| `Ed25519.Equal32` | include/keylight/ed25519.hpp:424-430 | the comparison without early exit is equality |
| `Ed25519.Verify` | include/keylight/ed25519.hpp:448-493 | accepts exactly when the scalar has its top three bits clear, the key decompresses, and R is the packed [S]B + [h](-A) |
| `Ed25519.VerificationEquation` | include/keylight/ed25519.hpp:438-475 | the point compared with R reads as S times the base point plus h times the negated key, h being the number of the SHA-512 digest of R, key and message, in this order, modulo L, and for a message below 2^61 - 64 bytes of the digest of FIPS 180-4, in every reading of every closed set of points that holds the two |
| `Ed25519.CurveEquation` | include/keylight/ed25519.hpp:438-441 | over a prime modulus with d no square that closed set may be the curve points with Z nonzero |
| `Ed25519.ChallengeIs` | include/keylight/ed25519.hpp:458-472 | the scalar h is the little-endian number of the digest of R, key and message, in this order, modulo L; below 2^61 - 64 message bytes the digest is the one of FIPS 180-4, words in big-endian bytes |
| `Ed25519.HashIsFips` | include/keylight/ed25519.hpp:464-469 | the streamed digest of less than 2^61 bytes is the one of the padded message of FIPS 180-4 |
| `Ed25519.BaseIsFourFifths` | include/keylight/ed25519.hpp:163-170 | the base point is the one with y = 4/5 and even x |
| `Ed25519.Moduli` | include/keylight/ed25519.hpp:385-393 | p is 2^255 - 19 and the order L is 2^252 + 27742317777372353535851937790883648493 |
| `Affine.NegationCancels` | include/keylight/ed25519.hpp:282-302 | the formula applied to a point and its negative gives a name of the neutral element |
| `Signing.EncodedSame` | include/keylight/ed25519.hpp:375-382 | packing gives the same bytes for every name (X:Y:Z:T) of a point |
| `Signing.UnpacksNegated` | include/keylight/ed25519.hpp:343-382 | unpacking what packing a point gave yields that point with x negated |
| `Signing.AcceptsExactly` | include/keylight/ed25519.hpp:438-493 | for a key that encodes a point A the verdict is true exactly if S is below 2^253 and R encodes a point with R + [h]A = [S]B, in every group the proper points stand for |
| `Signing.SignedVerifies` | include/keylight/ed25519.hpp:438-493 | every signature made as RFC 8032 section 5.1.6 makes it is accepted, in every group in which the base point has order L |
| `ScalarL.EliminateLimb` | include/keylight/ed25519.hpp:395-403 | eliminating one high limb subtracts a multiple of L, although the inner loop visits only 20 of its 32 limbs; carries stay bounded |
| `ScalarL.SubtractQuotient` | include/keylight/ed25519.hpp:404-408 | the estimated quotient times L is taken off exactly |
| `ScalarL.LastQuotient` | include/keylight/ed25519.hpp:404-408 | the estimated quotient leaves a value within L of zero, on either side |
| `ScalarL.LastCarry` | include/keylight/ed25519.hpp:406-409 | so the carry that is put back is 0 for a value at or above zero and -1 below |
| `ScalarL.KlModL` | include/keylight/ed25519.hpp:387-414 | 32 bytes whose little-endian value is the input modulo L |
| `ScalarL.KlReduce` | include/keylight/ed25519.hpp:417-421 | a 64-byte integer reduced modulo L |
| `Sha2.FoldedConcat` | include/keylight/ed25519.hpp:115-126 | folding the compression over whole blocks does not depend on where the message is split |
| `Sha2.CountIsLength` | include/keylight/ed25519.hpp:128-138 | the SHA-512 length field, whose upper half is zero, is the FIPS 180-4 length exactly for messages below 2^61 bytes |
| `Sha2.PaddingSpells` | include/keylight/ed25519.hpp:128-138 | read as a number the padding is a one bit above the length, as short as the block and the length field allow |
| `Sha2.PaddingIsUnique` | include/keylight/ed25519.hpp:128-138 | nothing else of such a length spells that number |
| `Sha2.WordsSpell` | include/keylight/ed25519.hpp:139-141 | each word of a digest stands in its place, most significant byte first |
| `Hashers.StartIsRoots` | include/keylight/ed25519.hpp:107-113 | the initial words are the fractions of the square roots of the first eight primes; those of SHA-256 are their upper halves |
| `Hashers.CountedIsFips` | include/keylight/sha256.hpp:133-157 | below 2^61 bytes the counted padding is the one of FIPS 180-4 section 5.1 |
| `Hashers.Sha512.Update` | include/keylight/ed25519.hpp:115-126 | buffering any bytes extends the absorbed message by exactly them |
| `Hashers.Sha512.Pad` | include/keylight/ed25519.hpp:128-138 | the closing block, or two blocks when the padding spills, fold to the padded rest |
| `Hashers.Sha512.Final` | include/keylight/ed25519.hpp:128-142 | the digest of the concatenation of everything passed to update, however split |
| `Hashers.Sha256.Update` | include/keylight/sha256.hpp:122-131 | byte by byte, the absorbed message grows by exactly the bytes given |
| `Hashers.Sha256.Pad` | include/keylight/sha256.hpp:133-157 | one closing block below 56 pending bytes, two otherwise, fold to the padded rest |
| `Hashers.Sha256.Final` | include/keylight/sha256.hpp:133-170 | the digest of everything passed to update, however split |
| `Sha2.Emit` | include/keylight/sha256.hpp:159-169 | the digest is each word in big-endian bytes |
| `Poly1305.ClampedLimbs` | include/keylight/chacha20poly1305.hpp:98-105 | masking the five key limbs is clamping the sixteen key bytes as RFC 8439 section 2.5 does |
| `PolyMath.BlockValue` | include/keylight/chacha20poly1305.hpp:196-200 | cutting a block into five limbs keeps its value |
| `PolyMath.ColumnBounds` | include/keylight/chacha20poly1305.hpp:202-216 | no product column leaves 64 bits for any limbs between blocks and any clamped key |
| `PolyMath.ColumnsValue` | include/keylight/chacha20poly1305.hpp:202-216 | the five columns denote the product modulo 2^130-5 |
| `PolyMath.BlockStep` | include/keylight/chacha20poly1305.hpp:195-229 | one iteration takes h to (h + block + marker) r modulo 2^130-5, no 32-bit or 64-bit operation wraps, and the limb bounds return |
| `PolyMath.SettleLimbs` | include/keylight/chacha20poly1305.hpp:145-152 | one pass of carries is enough: the last carry leaves limb 1 below 2^26 |
| `PolyMath.SubtractP` | include/keylight/chacha20poly1305.hpp:154-168 | the selected limbs denote h or h - p, whichever reduces h |
| `PolyMath.OneSubtraction` | include/keylight/chacha20poly1305.hpp:154-168 | one conditional subtraction reduces any five full limbs modulo p |
| `PolyMath.PackWords` | include/keylight/chacha20poly1305.hpp:170-174 | four 32-bit words of the value modulo 2^128 |
| `PolyMath.AddPad` | include/keylight/chacha20poly1305.hpp:176-180 | the sum with s modulo 2^128 |
| `Poly1305.Authenticator.constructor` | include/keylight/chacha20poly1305.hpp:98-112 | a fresh authenticator has absorbed nothing under the clamped key and the pad |
| `Poly1305.Authenticator.Blocks` | include/keylight/chacha20poly1305.hpp:189-232 | any number of whole blocks fold into the accumulator, with or without the marker bit |
| `Poly1305.Authenticator.Update` | include/keylight/chacha20poly1305.hpp:114-134 | buffered in any pieces, the message is their concatenation |
| `Poly1305.Authenticator.CloseBlock` | include/keylight/chacha20poly1305.hpp:137-143 | after the padded last block the limbs hold the accumulator of RFC 8439 section 2.5.1 for the whole message |
| `Poly1305.Authenticator.Finish` | include/keylight/chacha20poly1305.hpp:136-186 | the tag is (accumulator + s) modulo 2^128 of the concatenated message, however it was split |
| `Poly1305.Emit` | include/keylight/chacha20poly1305.hpp:145-185 | carries, reduction, packing and pad give (x + s) modulo 2^128 |
| `Poly1305.AccumulatorIsPolynomial` | include/keylight/chacha20poly1305.hpp:189-232 | the accumulator is the polynomial of RFC 8439 section 2.5 in r, one coefficient for each marked block, modulo 2^130-5 |
| `Poly1305.CoefficientsInjective` | include/keylight/chacha20poly1305.hpp:189-232 | the coefficients determine the message, its length included |
| `Poly1305.ClampIsMask` | include/keylight/chacha20poly1305.hpp:98-105 | clamping is the bitwise and with a mask, byte by byte |
| `Poly1305.ClampConstant` | include/keylight/chacha20poly1305.hpp:98-105 | that mask is 0ffffffc0ffffffc0ffffffc0fffffff |
| `ChaCha.ChaChaXor` | include/keylight/chacha20poly1305.hpp:77-89 | the output is the input under the keystream, in place or not, with the 32-bit block counter wrapping; bytes past the end are untouched |
| `ChaCha.StreamTwice` | include/keylight/chacha20poly1305.hpp:77-89 | the same stream applied twice gives back a message of any length |
| `ChaCha.StreamByBlocks` | include/keylight/chacha20poly1305.hpp:77-89 | 64 bytes under the block of the counter, the rest as the stream from the next counter |
| `ChaCha.StartSpells` | include/keylight/chacha20poly1305.hpp:50-58 | serialised, the initial state is the sixteen-byte text, key, counter and nonce, in this order |
| `ChaCha.BlockSpells` | include/keylight/chacha20poly1305.hpp:60-73 | each word of a block is the sum modulo 2^32 of the word after ten double rounds and the initial one |
| `ChaCha.DoubleRoundSpells` | include/keylight/chacha20poly1305.hpp:62-71 | a double round stirs the four columns and then the four columns of the slanted state |
| `ChaCha.QuarterRoundSpells` | include/keylight/chacha20poly1305.hpp:40-45 | a quarter round stirs its four words as RFC 8439 section 2.1 does and leaves the twelve others |
| `ChaCha.RotateMovesBits` | include/keylight/chacha20poly1305.hpp:40-45 | a rotation moves each bit up by its distance, around the end |
| `Bits.XorBits` | include/keylight/chacha20poly1305.hpp:85 | each bit of an exclusive or is the sum of the two bits modulo 2 |
| `Aead.Authenticate` | include/keylight/chacha20poly1305.hpp:253-269 | ciphertext, zeros to a block boundary and the two lengths are what gets authenticated |
| `Aead.Seal` | include/keylight/chacha20poly1305.hpp:246-270 | ciphertext and tag of RFC 8439 section 2.8 without associated data, plaintext and ciphertext buffers aliased or not |
| `Aead.OpenInto` | include/keylight/chacha20poly1305.hpp:275-304 | true exactly when the tag matches; then the plaintext, otherwise not one byte of the buffer changes |
| `Aead.OpenIffSealed` | include/keylight/chacha20poly1305.hpp:246-304 | opening yields a plaintext for exactly what sealing that plaintext produced, at every length |
| `Aead.MacDataInjective` | include/keylight/chacha20poly1305.hpp:253-269 | what is authenticated for two ciphertexts is the same exactly if they are |
| `Aead.AcceptedTag` | include/keylight/chacha20poly1305.hpp:246-304 | a tag opens a ciphertext exactly if its number is the polynomial, at r modulo 2^130-5, of ciphertext, zero fill and lengths, plus s modulo 2^128, r and s being the halves of the first 32 bytes of keystream block 0 |
| `Aead.SharedTagIsCollision` | include/keylight/chacha20poly1305.hpp:275-304 | a tag that opens one ciphertext opens another exactly if the two polynomials, whose coefficients differ, collide modulo 2^128 |
| `Aead.SealedBytes` | include/keylight/chacha20poly1305.hpp:246-252 | each byte sealed is the plaintext byte under the keystream from block 1 on |
| `Store.EncryptedFileStore.Save` | include/keylight/store.hpp:296-348 | temporary file then rename: which files exist after any fault, bytes lost at the close included, and after dying between any two disk operations; what is reported |
| `Store.EncryptedFileStore.Load` | include/keylight/store.hpp:237-294 | what is returned, and what the one-time import leaves on disk wherever it is cut |
| `Store.LoadAfterSave` | include/keylight/store.hpp:237-348 | after a save that reported success the next load under the same key returns the data exactly if the close lost no byte of it |
| `Store.SaveIsAtomic` | include/keylight/store.hpp:330-344 | when no byte is lost at the close, every way a save can end leaves the old contents or the new ones to the next load exactly unless the temporary file is the plaintext store still in use |
| `Store.LostCloseTears` | include/keylight/store.hpp:331-343 | a close that loses everything is reported as success and leaves nothing to the next load |
| `Store.LegacySurvives` | include/keylight/store.hpp:251-267 | any number of loads, each cut anywhere, keeps the plaintext contents exactly if none meets faults under which it truncates them or removes them after a short copy |
| `Store.LosingLoad` | include/keylight/store.hpp:251-267 | under such faults one load of a stated length loses them |
| `Store.ImportIsCrashSafe` | include/keylight/store.hpp:251-267 | with whole reads and lossless closes every run of loads is safe exactly when the legacy path is not the path of the temporary file |
| `Store.BlobSeals` | include/keylight/store.hpp:310-328 | the file holds the nonce, the sealed bytes and their tag, in this order |
| `Store.DecryptsExactly` | include/keylight/store.hpp:271-289 | a file gives non-empty contents exactly if it seals them under the nonce it starts with |
| `Store.SaveCompletes` | include/keylight/store.hpp:296-343 | an unhindered save leaves the sealed data under its path, no temporary file, and every other file as it was |
| `Store.SaveTouches` | include/keylight/store.hpp:296-343 | however a save ends, only its path and its temporary file are touched, and a reported failure spares the path |
| `Store.ImportCompletes` | include/keylight/store.hpp:251-267 | an unhindered first load seals the plaintext under the path, removes it and leaves every other file |
| `Store.LoadWritesNothing` | include/keylight/store.hpp:237-294 | a load with nothing to import writes nothing |
| `Delivery.StepKeeps` | include/keylight/client.hpp:2806-2889 | every step of any thread keeps the baton, queue and log invariant |
| `Delivery.EveryRun` | include/keylight/client.hpp:2806-2889 | in every run of any number of threads at most one activation drains, nothing is pending without one, the history is delivered then in flight then pending, and neighbours in it differ |
| `Delivery.AtQuiescence` | include/keylight/client.hpp:2628-2643 | with no thread inside, all events are delivered and the last one equals state() unless the clock verdict moved after the last poll |
| `Delivery.NextPollTells` | include/keylight/client.hpp:2766-2775 | from any quiet moment one poll leads to another at which the last event delivered is state(), whatever the clock did before |
| `Delivery.ReceivedAll` | include/keylight/client.hpp:2863-2887 | a listener in every round is called with each event once, in order |
| `Delivery.ListenerSeesEverything` | include/keylight/client.hpp:2798-2805 | a listener subscribed from one quiet moment to another receives exactly the events queued in between |
| `Delivery.ThreadComesOut` | include/keylight/client.hpp:2850-2888 | a thread left to itself empties the queue it drains and comes out, waiting for nobody |
| `Delivery.OwnDecreases` | include/keylight/client.hpp:2850-2888 | what a thread still has to do shrinks with each of its own steps |
| `Listeners.StateIsLastSet` | include/keylight/client.hpp:2628-2643 | in every run state() is the state set last, or the one booted with, and Invalid while the last clock verdict is against it |
| `Listeners.SetStateTells` | include/keylight/client.hpp:2628-2889 | from any quiet moment setting a state, its section and the thread's own steps end quiet with state() showing it, the history longer by it exactly if it differs from the last event, and every subscribed listener called with exactly what was added |
| `Listeners.ListenersAre` | include/keylight/client.hpp:1104-1120 | the listeners after a run are those subscribed and not unsubscribed since, under numbers never given twice |
| `Listeners.ExcludedHearsNothing` | include/keylight/client.hpp:2863-2887 | a listener that is unsubscribed and in no round under way is never called again |
| `Listeners.UnsubscribedIsExcluded` | include/keylight/client.hpp:1095-1102 | unsubscribing at a quiet moment makes it so |
| `Workers.StepKeeps` | include/keylight/client.hpp:867-932 | every step of start, stop, worker, heartbeat and destructor keeps the ownership and epoch invariant |
| `Workers.EveryRun` | include/keylight/client.hpp:841-866 | over all interleavings each worker is in exactly one handle, only the current worker carries the current epoch, start and stop join only finished workers, and nobody joins itself |
| `Workers.RetiredNeverPasses` | include/keylight/client.hpp:2574-2577 | a worker that is not the current one passes no further epoch check, whatever happens next |
| `Workers.StopStops` | include/keylight/client.hpp:912-932 | after a stop no worker spawned before it begins another cycle |
| `Workers.AllJoined` | include/keylight/client.hpp:288-305 | when the destructor has returned, every worker it collected is joined and no heartbeat lives |
| `Workers.CurrentNeverDone` | include/keylight/client.hpp:288-305 | a worker that is current has not finished and is in nobody's list to join |
| `Workers.NoneOutlivesTheClient` | include/keylight/client.hpp:280-305 | no worker outlives the client if no start spawns one behind the destructor's section; for runs without a stop behind it, only then |
| `Workers.LateStart` | include/keylight/client.hpp:280-305 | a listener that starts validation while the destructor waits for its worker leaves a new worker running that nobody joins |
| `Workers.HeartNeverRespawns` | include/keylight/client.hpp:1486-1493 | from the moment destruction begins no heartbeat thread is ever spawned |
| `Workers.RetiredWorkerExits` | include/keylight/client.hpp:306-324 | a retired worker finishes by its own steps, so each join of the destructor returns once the refresh in progress does |
| `Workers.StartStarts` | include/keylight/client.hpp:867-902 | a start leaves the current worker alone or, there being none, makes a new one that can cycle, unless the system refuses; it takes over exactly the finished workers to join |
| `Workers.StopRetires` | include/keylight/client.hpp:912-932 | a stop leaves no current worker, moves it to the retired ones, whose next look at the epoch fails, and takes over exactly the finished ones to join |
| `Workers.CurrentCycles` | include/keylight/client.hpp:2566-2618 | the current worker can begin a cycle whenever it looks, and the cycle brings it back |
| `Workers.HeartStarts` | include/keylight/client.hpp:2680-2703 | a heartbeat is started, and can beat, exactly if none is there, destruction has not begun and the system allows it |
| `Workers.HeartStops` | include/keylight/client.hpp:2705-2740 | once destruction has begun the heartbeat can only quit at its next look, and its join returns exactly when it has ended |
| `Client.Client.constructor` | include/keylight/client.hpp:1952-2085 | a relaunch takes cache and state from the store and bounds the stored lease by its anchor |
| `Client.Client.Activate` | include/keylight/client.hpp:341-424 | state, cache, store and answer after an activation, for every reply |
| `Client.Client.Validate` | include/keylight/client.hpp:427-516 | the same for a validation; the answer is state() at the same clock |
| `Client.Client.HandleRejection` | include/keylight/client.hpp:1864-1908 | a readable 422 either brings a lease or clears the cached one and makes the state Invalid |
| `Client.Client.ApplyOfflineGrace` | include/keylight/client.hpp:2487-2535 | Licensed is kept exactly while lease and anchor allow |
| `Client.Client.ValidateAndReconcile` | include/keylight/client.hpp:2401-2475 | a verdict of the server is applied, anything else falls to the grace rule |
| `Client.Client.RefreshIfNeeded` | include/keylight/client.hpp:970-1019 | the timer model, and the answer is state() at the same clock |
| `Client.Client.CheckOnLaunch` | include/keylight/client.hpp:947-962 | always asks when a key is stored, never otherwise; the answer is state() at the same clock |
| `Client.Client.Deactivate` | include/keylight/client.hpp:522-581 | paid fields forgotten, the trial start kept; a store that refuses leaves the state unchanged |
| `Client.Client.BeginTrial` | include/keylight/client.hpp:746-770 | the stamp is written only when there is none; the answer is state() at the same clock |
| `Client.Client.FetchConfig` | include/keylight/client.hpp:604-634 | only verified settings are absorbed |
| `Licensing.LicensedHasReason` | include/keylight/client.hpp:1929-1949 | a call turns another state into Licensed exactly if it receives a trusted, active, unexpired lease or an activation without lease; a relaunch exactly if the stored lease is one and its anchor holds |
| `Licensing.OnlyGrants` | include/keylight/client.hpp:1929-1949 | with a clock that does not go back, a client without a license at hand becomes Licensed at some point of a run exactly if the server grants one in it |
| `Licensing.RevokeSticks` | include/keylight/client.hpp:1900-1926 | after a revoke that reached the store, relaunches included, Licensed comes back exactly with the first such grant |
| `Licensing.RevokeSticksAnyClock` | include/keylight/client.hpp:1900-1926 | for clocks that go back too, as long as no lease received is good at their lowest reading |
| `Licensing.LostRevoke` | include/keylight/client.hpp:1917-1926 | a revoke the store refuses is undone by a relaunch exactly if the stored lease still grants |
| `Licensing.OfflineLaunch` | include/keylight/client.hpp:2477-2535 | without a verdict a launch shows Licensed if and only if lease, anchor and clock all allow it |
| `Licensing.OfflineBound` | include/keylight/client.hpp:970-1019 | so does a refresh, with a day or more configured: Licensed only on a recorded anchor no older than the bound |
| `Licensing.OfflineRun` | include/keylight/client.hpp:2043-2081 | over any run that learns nothing about the license, relaunches, refused activations, trial starts and settings included, Licensed is shown only near the last contact |
| `Licensing.NoDaysNoBound` | include/keylight/client.hpp:2511-2515 | with no days configured an anchor 999 days old still shows Licensed |
| `Licensing.TrialStartIsWriteOnce` | include/keylight/client.hpp:583-588 | once stamped and stored the trial start survives every call and relaunch, whatever the store refuses |
| `Licensing.StampSurvives` | include/keylight/client.hpp:2005-2009 | a first stamp that reaches the store is kept exactly when the clock does not read zero |
| `Licensing.DaysLeftShrink` | include/keylight/client.hpp:2098-2110 | days left never exceed the duration and never rise with the clock; an elapsed trial stays elapsed |
| `Licensing.ElapsedForever` | include/keylight/client.hpp:775-811 | with the trial length unchanged an elapsed trial stays elapsed through every run |
| `Licensing.SplitsExactly` | include/keylight/client.hpp:1123-1146 | from a clock on, gate and state() can be seen at odds exactly if the state is not a paid one and the cached lease opens the gate at some later clock |
| `Licensing.PartsExactly` | include/keylight/client.hpp:1128-1146 | each call leaves them so exactly if its guard says so, read off the reply, the cache and the store before the call |
| `Licensing.GateKeepsStep` | include/keylight/client.hpp:1128-1131 | a run keeps gate and state() together throughout exactly if they start so and no call of it meets its guard |
| `Licensing.GateOutlivesGrace` | include/keylight/client.hpp:2487-2535 | under an open gate a launch or due refresh without a verdict parts the two exactly when the grace rule ends: state() says Expired and the gate stays open |
| `Answers.StateIsAfter` | include/keylight/client.hpp:1929-1949 | the state after every call, written out: a trusted lease by its status and expiry, an activation without lease, a revoke, nothing paid at hand, the end of the grace, or no change |
| `Answers.RepliesSpelled` | include/keylight/client.hpp:427-516 | which replies count: a readable 200 or 422 to a question of validity, a readable 200 to an activation; when a launch or refresh asks at all |
| `Answers.TrialIsTime` | include/keylight/client.hpp:775-811 | a trial is active exactly for its days times 86400 seconds from its start, and the days left are the whole days of that |
| `Answers.TrialHasReason` | include/keylight/client.hpp:2165-2200 | a call turns to Trial exactly if it settles that nothing paid is at hand while the trial runs |
| `Answers.LimitedHasReason` | include/keylight/client.hpp:1929-1949 | a call turns to Limited exactly if it receives a trusted fallback lease, or a relaunch finds one whose anchor holds |
| `Answers.LateIsExpired` | include/keylight/client.hpp:1929-1949 | a trusted lease gives Expired exactly if it is active and more than 300 seconds late or of any status but active and fallback |
| `Answers.AnswerAfter` | include/keylight/client.hpp:341-581 | what every call answers: state() at that clock, or whether it failed |
| `Answers.ReportedSpells` | include/keylight/client.hpp:1123-1127 | state() is Invalid exactly while the clock is more than an hour behind the last contact, whatever was resolved |
| `Answers.RefreshSpells` | include/keylight/client.hpp:970-1019 | a refresh is due without contact, never within five minutes of one, else after six hours or within a day of the lease's end |
| `Answers.NoTrialAgain` | include/keylight/client.hpp:775-811 | once a trial has elapsed and is not shown, no later call of a run with forward clock and unchanged length answers Trial |
| `Answers.ElapsedEnds` | include/keylight/client.hpp:2165-2200 | the first launch or refresh of a client without license ends the showing of an elapsed trial |
| `Answers.CallKnows` | include/keylight/client.hpp:341-581 | lease, anchor, key, instance, dates, trial stamp and settings after every call, field by field, each from the last thing that set it |
| `Answers.StoreMirrors` | include/keylight/client.hpp:2321-2345 | a store that takes every save holds what a new process needs to know the same; one that takes none is unchanged |
| `Answers.RunMirrors` | include/keylight/client.hpp:2321-2345 | so over any run a relaunch knows what the client knew, empty strings and zero times aside |
| `Json.IntReads` | include/keylight/json.hpp:153-227 | every 64-bit integer written in decimal reads back as itself, the most negative one by saturation |
| `Json.EscapeReads` | include/keylight/json.hpp:109-150 | reading undoes the writer's escaping of any text, which is one of its spellings |
| `Json.SpellingReads` | include/keylight/json.hpp:109-150 | every spelling of a string per RFC 8259 section 7, each character raw, as one of the eight short escapes by character code, or as an escape of four hexadecimal digits or a pair of those, reads as that string |
| `Json.ReadIsSpelling` | include/keylight/json.hpp:109-150 | whatever reads as a string is such a spelling of it |
| `Json.AsIntTruncates` | include/keylight/json.hpp:385-400 | a double is cut off toward zero within 64 bits and saturates outside |
| `Spellings.ParseExactly` | include/keylight/json.hpp:230-357 | a text parses to a value exactly if it is a document, in a grammar given with its meaning and with space around every token, that means this value |
| `Spellings.DocReads` | include/keylight/json.hpp:230-322 | every spelling of a document reads as what it means and leaves what follows it |
| `Spellings.DocRead` | include/keylight/json.hpp:230-322 | whatever reads as a value is a document that means it |
| `Spellings.NumReads` | include/keylight/json.hpp:153-227 | a number reads as its digits before and after the point over a power of ten, times or over the power of its exponent; as an integer exactly when neither is written and it fits 63 bits |
| `Spellings.RepeatedNames` | include/keylight/json.hpp:266-272 | an object keeps one member for each name, in the order the names first appear, with the value given last |
| `Json.UnicodeReads` | include/keylight/json.hpp:74-142 | the escape of any code point that is not the first half of a pair, itself a pair beyond 16 bits, reads as its UTF-8 |
| `Json.Utf8Spells` | include/keylight/json.hpp:90-107 | the UTF-8 bytes spell the code point |
| `Json.TextReads` | include/keylight/json.hpp:230-322 | the text of any tree of strings, integers, booleans, arrays and objects reads back as that tree and stops where it ended |
| `Json.ParseText` | include/keylight/json.hpp:340-357 | parsing the text of such a tree gives the tree |
| `JsonParser.Parser.ParseString` | include/keylight/json.hpp:109-150 | the cursor loop reads exactly what the grammar function reads |
| `JsonParser.Parser.ParseUnicode` | include/keylight/json.hpp:126-142 | the cursor reads one code unit or a surrogate pair exactly as the grammar function does |
| `JsonParser.Parser.ParseDigits` | include/keylight/json.hpp:160-182 | the 64-bit accumulation is exact while the number fits, and promotes exactly when it does not |
| `JsonParser.Parser.ParseDecimals` | include/keylight/json.hpp:187-196 | adding each digit times a shrinking tenth gives the decimal fraction |
| `JsonParser.Parser.ParseExponent` | include/keylight/json.hpp:199-215 | multiplying or dividing by ten once for each unit of the exponent gives the power of ten |
| `JsonParser.Parser.ParseNumber` | include/keylight/json.hpp:153-227 | sign, digits, fraction and exponent as the grammar function reads them |
| `JsonParser.Parser.ParseValue` | include/keylight/json.hpp:230-322 | the recursive descent agrees with the grammar functions on value and remaining input, success or failure |
| `JsonParser.ParseText` | include/keylight/json.hpp:340-357 | trailing garbage and malformed input are refused exactly when the grammar refuses them |
| `Leases.FromJson` | include/keylight/lease.hpp:26-45 | the lease of a JSON value, refused without key id or status |
| `Leases.LeaseToJson` | include/keylight/client.hpp:1826-1846 | the text of the lease's JSON tree |
| `Leases.LeaseRoundTrip` | include/keylight/lease.hpp:26-45 | a lease written and read back is the same lease, and is accepted exactly when key id and status are present |
| `Wire.LeaseSpelled` | include/keylight/client.hpp:1826-1846 | the text of a lease, member by member |
| `Wire.LeaseOfMembers` | include/keylight/lease.hpp:26-45 | an object gives a lease exactly if key id and status are present and every field is the value its name was given last, whatever the order, repetitions and unknown names |
| `Wire.BlobSpelled` | include/keylight/client.hpp:2266-2319 | the text of the blob, name by name, without the fields that are not set |
| `Blob.BuildBlob` | include/keylight/client.hpp:2266-2319 | the text of the tree of the fields that are present |
| `Blob.LoadBlob` | include/keylight/client.hpp:1952-2041 | a text that parses gives the cache of its tree, any other none; the text of a cache gives that cache up to what a reload drops |
| `Blob.BlobRoundTrip` | include/keylight/client.hpp:1952-2041 | for every cache the parsed blob reloads to it, empty strings and zero times having become absent |
| `Blob.ReloadsItself` | include/keylight/client.hpp:1977-2009 | nothing is lost exactly when there is no empty string, zero date or incomplete lease |
| `Blob.PersistsTheLease` | include/keylight/client.hpp:2230-2243 | the re-parse caches the very lease that was written |
| `Payload.PayloadIgnoresOrder` | include/keylight/lease.hpp:52-66 | the payload does not depend on the order of the entitlements |
| `Payload.PayloadDetermines` | include/keylight/lease.hpp:52-66 | for bar-free fields and comma-free entitlements, payloads agree exactly when the signed fields and the entitlement multisets do, one blank entitlement being taken for none |
| `Trust.PayloadSpelled` | include/keylight/lease.hpp:47-66 | the payload is v3, key id, key hash, instance, both times, status and the entitlements in the order of words with commas, between bars |
| `Trust.LeqIsLexicographic` | include/keylight/lease.hpp:53-55 | that order is by the first differing character, a prefix first |
| `Trust.ShortestDecimal` | include/keylight/lease.hpp:63-65 | a number is written with the fewest digits that denote it, so in one way only |
| `Trust.ConfigSpelled` | include/keylight/config_payload.hpp:39-52 | the payload of a configuration, field by field |
| `Payload.EntitlementsCsv` | include/keylight/lease.hpp:53-61 | the loop joins the sorted entitlements |
| `Payload.ConfigDetermines` | include/keylight/config_payload.hpp:39-52 | equal configuration payloads mean equal key, tenant, product, times, days and tier |
| `Verifier.Verify` | include/keylight/verifier.hpp:50-93 | expiry, key lookup and signature verdict over the canonical payload |
| `Verifier.TrustIgnoresSpelling` | include/keylight/verifier.hpp:50-93 | the verdict does not change with entitlement order or with how key and signature are spelled in base64 |
| `Trust.SignedExactly` | include/keylight/verifier.hpp:50-93 | under a key that encodes a point a lease is trusted exactly if its decoded signature has 64 bytes, S below 2^253, and R + [h]A = [S]B for h over R, key and the bytes of the payload as written out |
| `Base64.Base64Encode` | include/keylight/result.hpp:133-152 | the groups of RFC 4648 section 4 |
| `Base64.Base64Decode` | include/keylight/result.hpp:154-173 | the wrapping 32-bit buffer decodes as an unbounded one would |
| `Base64.RoundTrip` | include/keylight/result.hpp:133-173 | decoding an encoding gives the bytes back |
| `Base64.DecodeFlexible` | include/keylight/verifier.hpp:27-41 | normalise, pad, decode |
| `Base64.FlexibleRoundTrip` | include/keylight/verifier.hpp:25-41 | URL-safe or standard characters, whitespace anywhere, padding whole, partial or absent: the bytes come back |
| `Sextets.FlexibleDecodes` | include/keylight/verifier.hpp:25-41 | what the flexible decoder makes of any text: the leading bits, in whole bytes, of the six-bit values its characters have in either table, up to the first padding and across everything else |
| `Sextets.EveryTextSpells` | include/keylight/verifier.hpp:25-41 | every text has such values |
| `Sextets.EncodedWrites` | include/keylight/result.hpp:133-152 | an encoding is the bits of the bytes, with zero bits to fill up, in characters of the standard table and padding |
| `Amalgamate.Walker.Process` | tools/amalgamate.py:145-220 | the recursion terminates on any include graph and begins exactly what the header reaches |
| `Amalgamate.Walker.Finish` | tools/amalgamate.py:222-238 | a header is emitted after its includes, and not at all when it comes to nothing |
| `Amalgamate.DepthIsOpen` | tools/amalgamate.py:171-177 | the depth counter is the most conditionals that are open from some line on; what is closed and was never opened does not count |
| `Amalgamate.KeptExactly` | tools/amalgamate.py:171-220 | what is left of a header is its lines in order, without resolved includes and without system includes outside every conditional |
| `Amalgamate.HoistedExactly` | tools/amalgamate.py:179-192 | the system includes moved to the top are those outside every conditional |
| `Amalgamate.Amalgamate` | tools/amalgamate.py:145-242 | every reachable non-empty header once, each after all it reaches by includes that no way leads back from; hoisted system includes are listed once each |
| `Amalgamate.LayeredIsTopological` | tools/amalgamate.py:13-14 | with no two headers including each other, every header comes after all it reaches, through headers that come to nothing too |
| `Amalgamate.TopologicalExactly` | tools/amalgamate.py:13-14 | when no header comes to nothing, the order is topological exactly if no two reached headers include each other |

## Left out

- Bit operations: shifts and masks are written as quotients, remainders and multiples of powers of
  two; the constant-time selections are branches, with `Field25519.MaskedSwap` relating the two for
  the conditional swap. Timing is not modelled.
- The compression functions and constant tables of SHA-2: any function of state and block.
- That 2^255-19 is prime and d no square: absence of zero divisors, Fermat's theorem and the second
  fact are hypotheses where they are used. Associativity of the addition is left to the reading: a
  scalar multiple is stated in every associative one; so is the order of the base point, where
  signatures are concerned. Nothing is assumed about forging.
- RFC 8032 sections 5.1.3 and 5.1.7 refuse y >= p, x = 0 with the sign bit set, and S >= L; the code
  accepts the first two, and of S it only checks that the top three bits are clear. So does the model.
- Store: two different path strings name two different files; directories, key derivation and `clear`
  are not modelled.
- Delivery and Workers: allocation failure and throwing listeners. The epoch counter is unbounded, so a wrap
  after 2^64 starts and stops is not modelled. The two reads inside
  `state()` are one step.
- Workers.AllJoined: outside threads must be out of start and stop when the destructor returns, as the
  class comment demands of its owner.
- Client: one clock reading serves a whole call, and the calls are sequential. The keyless beacon,
  hardware id write-through, lifecycle events, request building and retries are not modelled. Lease
  verification is a parameter here and `Verifier.Verify` elsewhere.
- Times and differences of times are unbounded integers; an overflow of 64-bit subtraction near the
  ends of the range is not modelled.
- JsonParser.Parser.ParseDigits: a double is an exact real number, here and in the fraction and the
  exponent; rounding is not modelled. It changes no result of `as_int` on an integer literal.
- JsonParser.Parser.ParseExponent: the exponent is unbounded; a 64-bit counter of its digits overflows.
- Json: text is a sequence of characters standing for bytes; object members are one ordered list
  instead of a key list and a map.
- Payload.Sorted: the library sort is an insertion sort on values; any sort gives the same sequence.
- Amalgamate: regular expressions, path resolution, guard stripping and the final file are not
  modelled: a line is given as what it is to the walk, and cleaning is any function of the kept lines.
- Transports, adapters, telemetry, headers, URLs and machine ids: they pass values on to the network
  or the operating system, which are parameters here.
