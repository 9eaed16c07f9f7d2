# Verification of the cryptographic core

This project models the arithmetic core of TweetNaCl in `src/tweetnacl/tweetnacl.c` and the one-time
initialisation of the hardware random number generator in `src/drivers/rng/drng.c`, and proves what
they compute.

The source works on arrays in place, and so does the model: every loop is a method on arrays, with
the integer widths of the source as range types (`u8`, `u32`, `u64`, `i64`), so that every assignment
carries a proof that nothing wraps where the source does not mean it to. Where words do wrap (the
Salsa20 and SHA-512 words) the reduction is written out. Every method is proved against a
specification function, and the properties are proved of those functions. The long constants (p, d, L
and the base point) are defined as the numbers in the limbs of the source, and their decimal or
hexadecimal values are lemmas.

The specification functions themselves are tied down a second time, apart from their definitions: the
word functions bit by bit, the tables by the roots of the prime numbers, the polynomials and the round
of X25519 by the curve, the signature by the hash and the group alone.

| file | content |
|---|---|
| `Bits`, `Bytes`, `Limbs` | words, byte strings and the value of a limb vector in any radix |
| `Field25519`, `FieldBytes`, `FieldPower` | arithmetic modulo p = 2^255 - 19 on sixteen signed limbs, packing, inversion |
| `X25519` | `crypto_scalarmult` against section 5 of RFC 7748 |
| `Montgomery`, `ClampLaws` | what the ladder computes on the Montgomery curve, and the clamped scalar as a number |
| `FieldAlgebra`, `EdwardsCurve`, `NonSquare`, `EdwardsGroup`, `EdwardsLadder` | the twisted Edwards curve, its addition law and the ladder, as mathematics |
| `Edwards`, `EdwardsBytes` | `add`, `cswap`, `scalarmult`, `scalarbase`, `pack`, `unpackneg` on limb arrays |
| `ScalarModL` | `modL` and `reduce` |
| `Sign`, `Signer` | Ed25519 signatures: the scheme and its theorems, and the three functions on buffers |
| `Poly1305`, `Poly1305Laws` | `crypto_onetimeauth` against section 2.5 of RFC 8439, and the tag in closed form |
| `Salsa20`, `Salsa20Laws`, `Stream`, `SecretBox` | the core and its laws, the stream ciphers and the authenticated box |
| `BitLaws` | the bits of a number under the word operators |
| `Sha512`, `Sha512Laws`, `Sha512Constants` | `crypto_hashblocks` and `crypto_hash` against FIPS 180-4, the laws of its functions and where its constants come from |
| `Drng` | `drng_init` as atomic steps of any number of threads |

## Hypotheses

The field arithmetic, X25519, the scalar arithmetic, the ciphers, the hash and the initialisation
protocol need no hypothesis. Three mathematical facts about the curve are not proved here. They are
named predicates in the `requires` of the lemmas that use them, and of the one method that joins
three calls (`Signer.SignAndOpen`):

- `Fermat`: x^(p-1) = 1 modulo p for x not 0, which is what primality of p gives.
- `Associative`: the affine addition law is associative on the curve.
- `PrimeOrderGroup` adds that L times the base point is the neutral element.

Everything else about the group is proved: the formulas stay on the curve (without any hypothesis),
d is not a square, so that the formulas have no exceptional case, they realise the addition law, which
is commutative, closed and has neutral and inverse elements; multiples of a point add up and multiply.

## Findings

- `crypto_sign` accepts messages of up to `SIZE_MAX - 64` bytes, but `crypto_sign_open` refuses a
  signed message longer than `SIZE_MAX - 64`. Opening after signing succeeds exactly for messages of
  at most `SIZE_MAX - 128` bytes (`Sign.OpenAfterSign`), on targets of any word size. The lengths that
  fail need a buffer of almost the whole address space.
- `crypto_secretbox` and `crypto_secretbox_open` ignore the return value of `crypto_stream_xor`. For
  more than 256 MiB, or when output and input are the same buffer, the stream refuses and leaves the
  buffer alone; `crypto_secretbox` then seals what was in the output buffer and returns 0. With
  separate buffers the output is the box, whatever the buffer held, exactly up to 256 MiB
  (`SecretBox.BoxedUpToLimit`, with a buffer that fails in `SecretBox.StaleBuffer`); in place the
  plaintext stays readable (`SecretBox.InPlaceReadable`, `SecretBox.InPlaceBox`). Opening has the same
  limit (`SecretBox.OpenedUpToLimit`), and in place it returns 0 and leaves the encrypted message
  (`SecretBox.InPlaceOpen`).
- On a target where the hardware probe of `drng_init` can succeed, the power-up self-test calls
  `drng_fill`, which finds `rng_impl` still unset and calls `drng_init` again; that call loses the
  compare-exchange and spins on a state that only its own caller could change. Some run gets there
  (`Drng.SelfTestReached`), and from there nobody ever returns (`Drng.SelfTestNeverEnds`). Therefore no
  run ever stores anything but `RNG_NONE` (`Drng.NeverHardware`). Under any interleaving,
  initialisation completes exactly when the probe is refused and the initialising thread gets its
  four remaining steps (`Drng.InitialisationCompletes`). That all threads agree on the stored value
  holds all the same.
- `unpackneg` reduces the encoded y modulo p and accepts x = 0 with either sign bit. Section 5.1.3 of
  RFC 8032 refuses an encoding with y at least p, and one with x = 0 and the sign bit set. The model
  follows the code; `EdwardsBytes.AgreesWithRfc` proves that these two cases are the only difference,
  and `EdwardsBytes.UnreducedKey` and `EdwardsBytes.SignedZeroKey` name an input for each.
- `crypto_sign_open` does not ask that S is below L, as section 5.1.7 of RFC 8032 does. It looks at S
  modulo L only (`Sign.OnlyModuloL`, with an input in `Sign.UnreducedDiffers`).
- `crypto_sign_open` reduces the digest k modulo L before it multiplies the key A; section 5.1.7 of RFC
  8032 does not. For keys with L A = 0, among them those of `crypto_sign_keypair`, that makes no
  difference (`Sign.AgreesForPrimeOrder`, `Sign.MadeKeysAgree`). For other keys the two agree when
  k A = (k mod L) A and otherwise never both accept (`Sign.AgreesWithRfcVerification`). With the key
  (0, -1), R = (0, 1) and S = 0 they differ exactly when k div L is odd (`Sign.KeyOfOrderTwo`), as it is
  for the messages of one byte 0x01, which the source accepts, and 0x04, which the RFC accepts. The
  digests of these two messages are not evaluated in the proofs.
- `crypto_sign_open` leaves, behind the message or the zeros, the last 64 bytes of the string it has
  hashed; `Signer.OpenBuffer` says which.

## Model

| member | source | states |
|---|---|---|
| `Field25519.PValue` | src/tweetnacl/tweetnacl.c:334-339 | the constants of the subtraction loop are the limbs of p = 2^255 - 19 |
| `Field25519.Car25519` | src/tweetnacl/tweetnacl.c:306-315 | one pass keeps the residue modulo p, for any limbs up to 2^62, and no word overflows |
| `Field25519.CarriedValue` | src/tweetnacl/tweetnacl.c:306-315 | folding the carry out of limb 15 into limb 0 with weight 38 is exact modulo p |
| `Field25519.TwoCarries` | src/tweetnacl/tweetnacl.c:385-386 | two carry passes bring any limbs up to 2^62 into the range [-38, 2^16+37] for limb 0 and [0, 2^16) for the others |
| `Field25519.Schoolbook` | src/tweetnacl/tweetnacl.c:380-382 | the 31 convolution limbs stand for the integer product; no partial sum overflows |
| `Field25519.FoldedValue` | src/tweetnacl/tweetnacl.c:383-384 | folding limbs 16 to 30 with weight 38 keeps the residue modulo p |
| `Field25519.M` | src/tweetnacl/tweetnacl.c:379-387 | for limbs up to 2^26 in absolute value the output is the product modulo p in the tight range, also when it is one of the inputs |
| `Field25519.S` | src/tweetnacl/tweetnacl.c:389 | the square modulo p, in place or not |
| `Field25519.A` | src/tweetnacl/tweetnacl.c:369-372 | the sum modulo p whenever the limb sums fit into 64 bits, with the limb bounds added; the output may be an input |
| `Field25519.Z` | src/tweetnacl/tweetnacl.c:374-377 | the difference modulo p whenever the limb differences fit into 64 bits, with the limb bounds added; the output may be an input |
| `Field25519.Set25519` | src/tweetnacl/tweetnacl.c:301-304 | an exact copy of the limbs |
| `FieldBytes.Sel25519` | src/tweetnacl/tweetnacl.c:317-324 | the mask arithmetic swaps the two vectors when b is 1 and changes nothing when b is 0 |
| `FieldBytes.ThirdCarry` | src/tweetnacl/tweetnacl.c:330-332 | after two passes a third one always leaves sixteen digits of radix 2^16 |
| `FieldBytes.SubtractP` | src/tweetnacl/tweetnacl.c:334-341 | one trial subtraction computes t - p exactly and its borrow says whether t < p |
| `FieldBytes.Normalise` | src/tweetnacl/tweetnacl.c:330-343 | three carries and two conditional subtractions always reach the one representative in [0, p) |
| `FieldBytes.Pack25519` | src/tweetnacl/tweetnacl.c:326-348 | the output is the little-endian form of the residue, for every limb vector up to 2^62 |
| `FieldBytes.Neq25519` | src/tweetnacl/tweetnacl.c:350-355 | 0 exactly when the two vectors are congruent modulo p |
| `FieldBytes.CanonicalBytes` | src/tweetnacl/tweetnacl.c:350-355 | two residues with the same 32 bytes are equal |
| `FieldBytes.Par25519` | src/tweetnacl/tweetnacl.c:357-361 | the lowest bit of the residue |
| `FieldBytes.Unpack25519` | src/tweetnacl/tweetnacl.c:363-367 | the limbs are the number in the bytes without bit 255 |
| `FieldBytes.Repack` | src/tweetnacl/tweetnacl.c:326-367 | pack after unpack gives (bytes mod 2^255) mod p |
| `FieldPower.Inv25519` | src/tweetnacl/tweetnacl.c:391-401 | i^(p-2) modulo p, through an exponent invariant over 254 rounds; the output may be the input |
| `FieldPower.Pow2523` | src/tweetnacl/tweetnacl.c:403-413 | i^(2^252-3) modulo p, through an exponent invariant over 251 rounds |
| `FieldPower.InvReached` | src/tweetnacl/tweetnacl.c:395-399 | 254 rounds that skip the multiplication in rounds 2 and 4 build the exponent p - 2 |
| `FieldPower.RootReached` | src/tweetnacl/tweetnacl.c:407-411 | 251 rounds that skip the multiplication in round 1 build the exponent 2^252 - 3 |
| `X25519.EagerSwap` | src/tweetnacl/tweetnacl.c:434-456 | selecting before and after each round with the bit of the round is the lazy swap of section 5 of RFC 7748 |
| `X25519.SourceOrder` | src/tweetnacl/tweetnacl.c:437-454 | the in-place schedule of the round computes the formulas of RFC 7748 |
| `X25519.RoundInPlace` | src/tweetnacl/tweetnacl.c:437-454 | one round on the six scratch vectors, with their reuse, inside the limb range of M |
| `X25519.RunLadder` | src/tweetnacl/tweetnacl.c:428-457 | 255 rounds keep the settled RFC state |
| `X25519.CryptoScalarmult` | src/tweetnacl/tweetnacl.c:415-468 | for all 32-byte scalars and points, exactly the bytes of X25519 in section 5 of RFC 7748 |
| `Montgomery.FormulasLaw` | src/tweetnacl/tweetnacl.c:437-454 | one round in polynomials: x2 = (X2^2 - Z2^2)^2, z2 = 4 X2 Z2 (X2^2 + 486662 X2 Z2 + Z2^2), x3 = 4 (X2 X3 - Z2 Z3)^2 and z3 = 4 x1 (X2 Z3 - Z2 X3)^2 modulo p, for all inputs |
| `Montgomery.SumAndDifference` | src/tweetnacl/tweetnacl.c:449-453 | on v^2 = u^3 + 486662 u^2 + u the coordinates of P + Q and P - Q have the product (u w - 1)^2 / (w - u)^2 |
| `Montgomery.RoundOnCurve` | src/tweetnacl/tweetnacl.c:437-454 | one round on a state that stands for two points of that curve with difference x1 doubles the first by the tangent and adds the two by the chord |
| `Montgomery.RoundsAreMultiples` | src/tweetnacl/tweetnacl.c:433-457 | the state holds the multiples n and n + 1, built by doubling and differential addition without any swap, for the bits n read so far |
| `Montgomery.SpecIsMultiple` | src/tweetnacl/tweetnacl.c:415-468 | the result is x / z of multiple number k, for the number k of the clamped scalar |
| `ClampLaws.ClampedBit` | src/tweetnacl/tweetnacl.c:424-426 | the scalar has bits 3 to 253 of the input, bit 254 set and the other four clear |
| `ClampLaws.ClampedRange` | src/tweetnacl/tweetnacl.c:424-426 | the scalar is a multiple of 8 in [2^254, 2^255) |
| `ScalarModL.OrderValue` | src/tweetnacl/tweetnacl.c:730-732 | the 32 bytes are the order L = 2^252 + 27742317777372353535851937790883648493 |
| `ScalarModL.Row` | src/tweetnacl/tweetnacl.c:737-744 | one row removes exactly x[i] * 2^(8(i-32)) * 16 L: skipping L[20..31] is exact because 16 L[31] cancels x[i]; nothing overflows |
| `ScalarModL.EliminateRows` | src/tweetnacl/tweetnacl.c:736-745 | the 32 rows keep the value modulo L and clear the upper limbs |
| `ScalarModL.SubtractTop` | src/tweetnacl/tweetnacl.c:746-751 | the pass subtracts floor(x[31] / 16) times L, leaving bytes and a small carry, without overflow |
| `ScalarModL.FinalCarry` | src/tweetnacl/tweetnacl.c:746-752 | the carry that is left is 0 or -1, and adding it back times L gives the residue |
| `ScalarModL.ModL` | src/tweetnacl/tweetnacl.c:734-757 | for limbs from 0 to 255 + 32*255*255 the output is the residue modulo L |
| `ScalarModL.Reduce` | src/tweetnacl/tweetnacl.c:759-764 | 64 bytes become the 32-byte residue modulo L |
| `Poly1305.Add1305` | src/tweetnacl/tweetnacl.c:194-201 | the sum of two 17-byte numbers modulo 2^136, without a word wrapping |
| `Poly1305.ColumnValue` | src/tweetnacl/tweetnacl.c:230-233 | the factor 320 is the right fold of 2^136 modulo 2^130 - 5 |
| `Poly1305.ProductValue` | src/tweetnacl/tweetnacl.c:230-233 | the columns stand for h r modulo 2^130 - 5 |
| `Poly1305.Multiply` | src/tweetnacl/tweetnacl.c:230-234 | the product modulo 2^130 - 5 with every 32-bit sum in range |
| `Poly1305.Fold` | src/tweetnacl/tweetnacl.c:235-250 | the two carry chains keep the residue and bring the accumulator below 2 (2^130 - 5) |
| `Poly1305.AbsorbMessage` | src/tweetnacl/tweetnacl.c:222-251 | the block loop computes the polynomial of section 2.5 of RFC 8439 and keeps the accumulator below 2 (2^130 - 5) |
| `Poly1305.LoadKey` | src/tweetnacl/tweetnacl.c:212-220 | the seven byte masks are the clamp of RFC 8439: r as a number, and each of its 128 bits |
| `Poly1305.ClampBit` | src/tweetnacl/tweetnacl.c:214-220 | bit i of the mask is clear exactly when i mod 32 is at least 28, or i is at least 32 and i mod 32 below 2 |
| `Poly1305.ClampedBits` | src/tweetnacl/tweetnacl.c:214-220 | the clamped key has the bits of the key that are not cleared |
| `Poly1305.Freeze` | src/tweetnacl/tweetnacl.c:253-256 | one masked subtraction of 2^130 - 5 gives the residue |
| `Poly1305.OneTimeAuth` | src/tweetnacl/tweetnacl.c:205-263 | for every message and key, the tag of section 2.5 of RFC 8439, also when the output overlaps its own key or message |
| `Poly1305Laws.TagIsPolynomial` | src/tweetnacl/tweetnacl.c:205-263 | the tag is the polynomial whose coefficients are the blocks with a byte 1 on top, at r, modulo 2^130 - 5, plus the second half of the key |
| `Poly1305Laws.AbsorbIsPolynomial` | src/tweetnacl/tweetnacl.c:222-251 | the block loop from any accumulator is that accumulator times a power of r plus the polynomial |
| `Poly1305Laws.TagOfEmpty` | src/tweetnacl/tweetnacl.c:253-260 | the tag of the empty message is the second half of the key |
| `Poly1305Laws.Modulus` | src/tweetnacl/tweetnacl.c:203 | the modulus is 2^130 - 5 |
| `Salsa20.TwoRounds` | src/tweetnacl/tweetnacl.c:104-114 | two iterations with the transposing store are one doubleround (rowround after columnround) |
| `Salsa20.EvenRounds` | src/tweetnacl/tweetnacl.c:104-114 | 2 n iterations are n doublerounds |
| `Salsa20.Ld32` | src/tweetnacl/tweetnacl.c:50-55 | the little-endian word of four bytes |
| `Salsa20.St32` | src/tweetnacl/tweetnacl.c:63-69 | the four little-endian bytes of a word |
| `Salsa20.TwentyRounds` | src/tweetnacl/tweetnacl.c:104-114 | the loop nest on the arrays x, t and w computes ten doublerounds |
| `Salsa20.CoreInPlace` | src/tweetnacl/tweetnacl.c:91-128 | h = 0 is the Salsa20 hash, h = 1 the eight words of HSalsa20 |
| `Salsa20Laws.RotlBit` | src/tweetnacl/tweetnacl.c:48 | bit i + c modulo 32 of the rotated word is bit i of the word |
| `Salsa20Laws.QuarterRoundBits` | src/tweetnacl/tweetnacl.c:107-110 | every bit of the four lines of the quarterround, with the counts 7, 9, 13 and 18 |
| `Salsa20Laws.QuarterRoundExamples` | src/tweetnacl/tweetnacl.c:107-110 | the quarterround values of section 3 of the Salsa20 specification for the four inputs with one bit set |
| `Salsa20Laws.RoundExamples` | src/tweetnacl/tweetnacl.c:104-114 | the first rowround and columnround values of sections 4 and 5 of the Salsa20 specification |
| `Salsa20Laws.ColumnsAreRows` | src/tweetnacl/tweetnacl.c:104-114 | a columnround is a rowround of the transposed state, transposed |
| `Salsa20Laws.RowsOfRowRound` | src/tweetnacl/tweetnacl.c:104-114 | row r is the quarterround of the row, started at its diagonal word |
| `Salsa20Laws.ExpandedWords` | src/tweetnacl/tweetnacl.c:95-100 | the places of the constant, the key and the input in the state |
| `Salsa20Laws.CoreWord` | src/tweetnacl/tweetnacl.c:127-128 | word i of the hash is word i after twenty rounds, columns and rows in turn, plus word i of the state |
| `Salsa20Laws.HCoreWord` | src/tweetnacl/tweetnacl.c:117-126 | HSalsa20 gives words 0, 5, 10, 15 and 6 to 9 after twenty rounds |
| `Stream.CountBlock` | src/tweetnacl/tweetnacl.c:160-165 | the byte-carry loop adds one to the 64-bit block counter |
| `Stream.XorStreamTwice` | src/tweetnacl/tweetnacl.c:142-176 | encrypting twice gives back the message |
| `Stream.StreamSalsa20Xor` | src/tweetnacl/tweetnacl.c:142-176 | for every length up to 2^28 and another buffer, the whole output, byte by byte; above it or in place, -1 and no change |
| `Stream.SigmaText` | src/tweetnacl/tweetnacl.c:140 | the sixteen constant bytes are the characters of the string |
| `Stream.LimitValue` | src/tweetnacl/tweetnacl.c:147 | 256 MiB are 2^28 bytes |
| `SecretBox.CryptoStreamXor` | src/tweetnacl/tweetnacl.c:188-192 | the whole output, byte by byte: the core on nonce bytes 16 to 23 and the block number, under the HSalsa20 key of nonce bytes 0 to 15; with the return values |
| `SecretBox.CryptoSecretbox` | src/tweetnacl/tweetnacl.c:272-283 | the box when the stream runs; when it refuses, its -1 is ignored and what was in the buffer is sealed as it is |
| `SecretBox.BoxLaw` | src/tweetnacl/tweetnacl.c:272-283 | the box byte by byte: sixteen zeros, the tag of the encrypted message under the first 32 bytes of the key stream, and the message under the bytes after them |
| `SecretBox.BoxedUpToLimit` | src/tweetnacl/tweetnacl.c:279 | with separate buffers the output is the box, whatever the buffer held, exactly up to 2^28 bytes |
| `SecretBox.StaleBuffer` | src/tweetnacl/tweetnacl.c:279-281 | beyond the limit there is a buffer that does not become the box |
| `SecretBox.InPlaceReadable` | src/tweetnacl/tweetnacl.c:279-281 | in place the output holds the plaintext behind the tag |
| `SecretBox.InPlaceBox` | src/tweetnacl/tweetnacl.c:279-281 | in place the output is the box only where the cipher would have changed nothing |
| `SecretBox.SealInPlace` | src/tweetnacl/tweetnacl.c:280-281 | the tag overwrites part of its own key without harm |
| `SecretBox.VerifyBox` | src/tweetnacl/tweetnacl.c:293-295 | 0 exactly when bytes 16 to 31 are the tag of the rest under the first 32 stream bytes |
| `SecretBox.CryptoSecretboxOpen` | src/tweetnacl/tweetnacl.c:285-299 | 0 exactly when the box is authentic; the output is untouched otherwise |
| `SecretBox.OpenedUpToLimit` | src/tweetnacl/tweetnacl.c:296-297 | with separate buffers the opened message comes out, whatever the buffer held, exactly up to 2^28 bytes |
| `SecretBox.InPlaceOpen` | src/tweetnacl/tweetnacl.c:296-298 | opening in place leaves the encrypted message, which is the message exactly where the cipher would have changed nothing |
| `SecretBox.OpenAfterBox` | src/tweetnacl/tweetnacl.c:272-299 | every box of a padded message is authentic and opens to the message |
| `SecretBox.BoxAndOpen` | src/tweetnacl/tweetnacl.c:272-299 | the two calls on buffers, one after the other, return 0 and the plaintext |
| `Bytes.VN` | src/tweetnacl/tweetnacl.c:81-85 | 0 exactly when the two byte strings are equal, -1 otherwise |
| `Sha512.Dl64` | src/tweetnacl/tweetnacl.c:57-61 | the big-endian word of eight bytes |
| `Sha512.Ts64` | src/tweetnacl/tweetnacl.c:71-79 | the eight big-endian bytes of a word |
| `Sha512.LoadStored` | src/tweetnacl/tweetnacl.c:566-595 | storing the state and loading it again changes nothing |
| `Sha512.StoreLoaded` | src/tweetnacl/tweetnacl.c:566-595 | loading 64 bytes as a state and storing it gives the bytes back |
| `Sha512.RoundInPlace` | src/tweetnacl/tweetnacl.c:576-580 | one round on the arrays a and b is the round of section 6.4.2 of FIPS 180-4 |
| `Sha512.NextWords` | src/tweetnacl/tweetnacl.c:581-583 | the in-place update replaces W_t, ..., W_{t+15} by the next sixteen words, although some operands are already overwritten |
| `Sha512.EightyRounds` | src/tweetnacl/tweetnacl.c:575-584 | the rolling sixteen words give the eighty rounds with the schedule W_t |
| `Sha512.CompressBlock` | src/tweetnacl/tweetnacl.c:573-589 | one block is the compression of section 6.4.2 of FIPS 180-4 |
| `Sha512.HashBlocks` | src/tweetnacl/tweetnacl.c:562-598 | the state bytes after the fold over all whole blocks, and the length of the rest |
| `Sha512.BlocksAppend` | src/tweetnacl/tweetnacl.c:572-593 | hashing the concatenation of m1 and m2 is hashing m1 and then m2, for whole blocks m1 |
| `Sha512.HashInTwoParts` | src/tweetnacl/tweetnacl.c:616-630 | the bulk call and the call on the tail hash the padded message of section 5.1.2 of FIPS 180-4 |
| `Sha512.LengthBytes` | src/tweetnacl/tweetnacl.c:627-629 | b >> 61 and b << 3 are the bytes of the 128-bit bit length |
| `Sha512.BuildTail` | src/tweetnacl/tweetnacl.c:619-629 | the 128- or 256-byte tail is the rest of the message and the padding |
| `Sha512.CryptoHash` | src/tweetnacl/tweetnacl.c:606-635 | SHA-512 of the message, for every length below 2^64 |
| `Sha512Laws.ChBit` | src/tweetnacl/tweetnacl.c:533 | Ch takes the bit of y where x has a 1 and that of z where x has a 0 |
| `Sha512Laws.ChSelects` | src/tweetnacl/tweetnacl.c:533 | x and Ch is x and y; not x and Ch is not x and z |
| `Sha512Laws.MajBit` | src/tweetnacl/tweetnacl.c:534 | Maj takes the bit that two of the three words have |
| `Sha512Laws.RotrBit` | src/tweetnacl/tweetnacl.c:532 | bit i of the rotated word is bit i + c modulo 64 of the word |
| `Sha512Laws.SigmaBits` | src/tweetnacl/tweetnacl.c:535-538 | every bit of the four sigma functions, with all rotation and shift counts |
| `Sha512Laws.RoundLaw` | src/tweetnacl/tweetnacl.c:576-580 | the two sums and the six words that move up, from the words before the round |
| `Sha512Laws.FirstScheduled` | src/tweetnacl/tweetnacl.c:582-583 | which words of a block go into word 16 of the schedule, and through which function |
| `Sha512Laws.ScheduleSlides` | src/tweetnacl/tweetnacl.c:581-583 | every later word is word 16 of the sixteen words before it |
| `Sha512Laws.EightySteps` | src/tweetnacl/tweetnacl.c:575-584 | the last of the eighty rounds is round 79, with K and W number 79 |
| `Sha512Laws.FeedForwardLaw` | src/tweetnacl/tweetnacl.c:586-589 | the eight words after the rounds are added to those of the chaining value |
| `Sha512Laws.PadLaw` | src/tweetnacl/tweetnacl.c:616-629 | whole blocks, a byte 0x80, fewer than 128 zeros, and the bit length in the last sixteen bytes |
| `Sha512Laws.StateLayout` | src/tweetnacl/tweetnacl.c:566-595 | the state bytes are the words a to h in this order, big-endian |
| `Sha512Laws.BlockLayout` | src/tweetnacl/tweetnacl.c:573 | word i of a block has bytes 8 i to 8 i + 7 of the block, big-endian |
| `Sha512Laws.OneBlock` | src/tweetnacl/tweetnacl.c:606-635 | the hash of a message of at most 111 bytes is one compression of the initial value |
| `Sha512Constants.RoundConstants` | src/tweetnacl/tweetnacl.c:540-561 | K(t) is made of the first 64 bits after the point of the cube root of the t-th prime number |
| `Sha512Constants.InitialValue` | src/tweetnacl/tweetnacl.c:600-604 | the i-th initial word is made of the first 64 bits after the point of the square root of the i-th prime number |
| `Sha512Constants.PrimeIsPrime` | src/tweetnacl/tweetnacl.c:540-561 | the eighty numbers are prime and increasing |
| `Sha512Constants.EveryPrime` | src/tweetnacl/tweetnacl.c:540-561 | they are all the prime numbers up to 409 |
| `EdwardsCurve.Constants` | src/tweetnacl/tweetnacl.c:37-44 | d = -121665/121666, D2 = 2 d and y = 4/5 with even x on the base point |
| `EdwardsCurve.MinusOneIsSquare` | src/tweetnacl/tweetnacl.c:45-46 | the constant I is a square root of -1 |
| `EdwardsCurve.BaseOnCurve` | src/tweetnacl/tweetnacl.c:41-44 | the base point satisfies the curve equation |
| `EdwardsCurve.AddResidues` | src/tweetnacl/tweetnacl.c:640-658 | the formulas give 4 (x1 y2 + x2 y1) F and so on, as congruences |
| `EdwardsCurve.ClosureDefect` | src/tweetnacl/tweetnacl.c:637-659 | the four products satisfy the curve equation in extended coordinates |
| `EdwardsCurve.AddKeepsExtended` | src/tweetnacl/tweetnacl.c:637-659 | the formulas keep X Y = Z T and -X^2 + Y^2 = Z^2 + d T^2, for any inputs that satisfy them and even where Z is 0 |
| `NonSquare.NotASquare` | src/tweetnacl/tweetnacl.c:37-38 | the constant d is not a square modulo p |
| `EdwardsGroup.Complete` | src/tweetnacl/tweetnacl.c:637-659 | no two points of the curve have d x1 y1 x2 y2 = 1 or -1, so the formulas have no exceptional case |
| `EdwardsGroup.RepOnCurve` | src/tweetnacl/tweetnacl.c:637-659 | extended coordinates with Z not 0 satisfy the two relations exactly when their point is on the curve |
| `EdwardsGroup.RepAdd` | src/tweetnacl/tweetnacl.c:637-659 | add computes the affine addition law, for all pairs of points, equal or not |
| `EdwardsGroup.EAddOnCurve` | src/tweetnacl/tweetnacl.c:637-659 | the sum of two points is on the curve |
| `EdwardsGroup.EAddNeg` | src/tweetnacl/tweetnacl.c:914-915 | a point and its negative add up to (0, 1) |
| `EdwardsGroup.SMulMod` | src/tweetnacl/tweetnacl.c:868-871 | a multiple of a point of order n depends on the multiplier modulo n |
| `Edwards.SourceOrder` | src/tweetnacl/tweetnacl.c:640-658 | the order of operations of the source gives the formulas of section 5.1.4 of RFC 8032 |
| `Edwards.Add` | src/tweetnacl/tweetnacl.c:637-659 | p becomes p + q by those formulas, inside the limb range of M, also when q is p |
| `Edwards.SwapPoints` | src/tweetnacl/tweetnacl.c:661-665 | swaps the four coordinates when b is 1 |
| `Edwards.ScalarMult` | src/tweetnacl/tweetnacl.c:676-689 | both points of the ladder after 256 rounds, for any 32 bytes |
| `Edwards.ScalarBase` | src/tweetnacl/tweetnacl.c:691-698 | the ladder on the base point |
| `EdwardsLadder.ClimbKeepsExtended` | src/tweetnacl/tweetnacl.c:681-688 | every round keeps both points of the ladder on the curve, without any hypothesis |
| `EdwardsLadder.RungHolds` | src/tweetnacl/tweetnacl.c:682-687 | one round takes n Q, (n+1) Q to (2n+b) Q, (2n+b+1) Q, the swap being undone |
| `EdwardsLadder.ClimbHolds` | src/tweetnacl/tweetnacl.c:681-688 | the invariant: the points are n Q and (n+1) Q for the bits n read so far |
| `EdwardsLadder.Multiplies` | src/tweetnacl/tweetnacl.c:676-689 | the ladder computes s Q for every 256-bit s |
| `EdwardsBytes.Pack` | src/tweetnacl/tweetnacl.c:667-674 | the encoding of X/Z, Y/Z of section 5.1.2 of RFC 8032 |
| `EdwardsBytes.AffineOfRep` | src/tweetnacl/tweetnacl.c:667-674 | what is packed depends on the point and not on its coordinates |
| `EdwardsBytes.EncodeParts` | src/tweetnacl/tweetnacl.c:672-673 | y and the parity of x can be read back from the encoding |
| `EdwardsBytes.EncodeInjective` | src/tweetnacl/tweetnacl.c:667-674 | two points of the curve with the same encoding are equal |
| `EdwardsBytes.UnpackNeg` | src/tweetnacl/tweetnacl.c:883-919 | 0 exactly when the square root exists; then the four coordinates, otherwise -1 |
| `EdwardsBytes.UnpackOnCurve` | src/tweetnacl/tweetnacl.c:883-919 | an accepted key leaves a point of the curve with Z = 1 and T = X Y, the decoded y, and an x of the parity opposite to the sign bit unless it is 0 |
| `EdwardsBytes.RootComplete` | src/tweetnacl/tweetnacl.c:892-912 | the candidate of exponent (p-5)/8, or its product with I, is a root whenever there is one |
| `EdwardsBytes.UnpackAccepts` | src/tweetnacl/tweetnacl.c:883-919 | accepted exactly when a point of the curve has the decoded y |
| `EdwardsBytes.RootIsRfc` | src/tweetnacl/tweetnacl.c:904-912 | trying the candidate and its product with I is the case distinction on v x^2 = u and v x^2 = -u of section 5.1.3 of RFC 8032 |
| `EdwardsBytes.AgreesWithRfc` | src/tweetnacl/tweetnacl.c:883-919 | against section 5.1.3 of RFC 8032: the same points, negated, and exactly the unreduced y and the x = 0 with sign bit accepted beyond it |
| `EdwardsBytes.DecodeInvertsEncode` | src/tweetnacl/tweetnacl.c:667-674 | the decoding of section 5.1.3 gives a point exactly for the bytes that pack writes for it |
| `EdwardsBytes.UnreducedKey` | src/tweetnacl/tweetnacl.c:885-889 | the encoding of y = p + 1 is accepted, and section 5.1.3 of RFC 8032 refuses it |
| `EdwardsBytes.SignedZeroKey` | src/tweetnacl/tweetnacl.c:914-915 | the encoding of y = 1 with the sign bit is accepted, and section 5.1.3 of RFC 8032 refuses it |
| `EdwardsBytes.UnpackEncode` | src/tweetnacl/tweetnacl.c:883-919 | the encoding of a point unpacks to the negative of the point |
| `Signer.Convolve` | src/tweetnacl/tweetnacl.c:868-870 | the limbs of r + h a, each at most 255 + 32*255*255 |
| `Signer.CryptoSign` | src/tweetnacl/tweetnacl.c:833-881 | the concatenation of R, S and M of section 5.1.6 of RFC 8032, the length, and the overflow guard |
| `Signer.CryptoSignOpen` | src/tweetnacl/tweetnacl.c:766-831 | 0 exactly when the signature verifies; the message or zeros in the output, and the outputs untouched after an early return |
| `Signer.CryptoSignKeypair` | src/tweetnacl/tweetnacl.c:700-728 | the public key of the seed, and the secret key as seed and public key |
| `Signer.SignAndOpen` | src/tweetnacl/tweetnacl.c:700-881 | making a key pair, signing and opening on buffers returns 0, the length and the message |
| `Sign.PublicKeyAsRfc` | src/tweetnacl/tweetnacl.c:714-720 | the public key is the encoding of a B for the clamped number a in the first half of Hash(seed), section 5.1.5 of RFC 8032 |
| `Sign.SignedAsRfc` | src/tweetnacl/tweetnacl.c:833-881 | the signature of section 5.1.6 of RFC 8032, over the hash, the group and the encoding alone: r from the hash of the second half of Hash(seed) and the message, k from the hash of R, A and the message, both unreduced |
| `Sign.RecoversNonce` | src/tweetnacl/tweetnacl.c:795-803 | S B - h A encodes to R exactly, by S = r + h a modulo L |
| `Sign.SignatureVerifies` | src/tweetnacl/tweetnacl.c:766-881 | every signature made with a matching key pair is accepted |
| `Sign.OpenAfterSign` | src/tweetnacl/tweetnacl.c:766-881 | opening a signed message returns it, exactly for messages up to SIZE_MAX - 128 bytes, whatever SIZE_MAX is |
| `Sign.VerificationEquation` | src/tweetnacl/tweetnacl.c:785-806 | accepted exactly when the key decodes and S B = R + h A for the point R that the first half encodes |
| `Sign.SourceAccepts` | src/tweetnacl/tweetnacl.c:785-806 | with a reduced S and a key that section 5.1.3 of RFC 8032 decodes, the source tests S B = R + (k mod L) A |
| `Sign.AgreesWithRfcVerification` | src/tweetnacl/tweetnacl.c:793 | against section 5.1.7 of RFC 8032, whose digest k is not reduced: for a reduced S and a key that decodes the two agree when k A = (k mod L) A, and never both accept when that fails |
| `Sign.SameMultipleIff` | src/tweetnacl/tweetnacl.c:793 | k A = (k mod L) A exactly when k div L multiples of L A vanish |
| `Sign.AgreesForPrimeOrder` | src/tweetnacl/tweetnacl.c:785-806 | for keys with L A = 0 the difference from section 5.1.7 is exactly an unreduced S and the more lenient decoding |
| `Sign.MadeKeysAgree` | src/tweetnacl/tweetnacl.c:714-720 | for the keys of crypto_sign_keypair the difference is an unreduced S alone |
| `Sign.KeyOfOrderTwo` | src/tweetnacl/tweetnacl.c:793 | for the key (0, -1), R = (0, 1) and S = 0 the RFC accepts for even k and the source for even k mod L |
| `Sign.OnlyModuloL` | src/tweetnacl/tweetnacl.c:799 | acceptance depends on S modulo L only |
| `Sign.UnreducedDiffers` | src/tweetnacl/tweetnacl.c:799 | a signature with L added to S is accepted when the original is, and never by section 5.1.7 of RFC 8032 |
| `Drng.StepInv` | src/drivers/rng/drng.c:399-455 | every atomic step of any thread keeps the invariant |
| `Drng.RunInv` | src/drivers/rng/drng.c:399-455 | the invariant holds in every state of every run, for any number of threads |
| `Drng.OnceOnly` | src/drivers/rng/drng.c:405-454 | the compare-exchange is won at most once, rng_impl is stored at most once, and drng_init_state only moves 0, 1, 2 |
| `Drng.Later` | src/drivers/rng/drng.c:399-455 | what was stored and who returned is never taken back |
| `Drng.ReturnedSeesStore` | src/drivers/rng/drng.c:401-415 | every thread that returns, by the fast, the spinning or the winning path, sees the one stored value, whatever it is, then and ever after |
| `Drng.NeverHardware` | src/drivers/rng/drng.c:421-448 | in no run does rng_impl ever become anything but RNG_NONE |
| `Drng.SelfTestNeverEnds` | src/drivers/rng/drng.c:319-323 | once the self-test is entered nobody ever returns and nothing is ever stored |
| `Drng.SelfTestReached` | src/drivers/rng/drng.c:319-321 | some run enters the self-test |
| `Drng.AllPathsReached` | src/drivers/rng/drng.c:401-454 | in some run threads return by the winning, the spinning and the fast path |
| `Drng.HardwarePublished` | src/drivers/rng/drng.c:435-454 | with a self-test that does not call drng_init some run publishes the hardware and a later thread sees it |
| `Drng.NeverCompletes` | src/drivers/rng/drng.c:319-321 | once the hardware is taken, no schedule completes the initialisation |
| `Drng.Completes` | src/drivers/rng/drng.c:447-454 | past a refused probe, exactly the schedules that give the initialising thread its remaining steps complete the initialisation |
| `Drng.InitialisationCompletes` | src/drivers/rng/drng.c:427-454 | from the probe on, a schedule completes the initialisation exactly when the hardware is refused and the initialising thread takes four steps |

## Left out

- SecretBox.CryptoSecretbox: `c` and `m` are the same buffer or different ones; partly overlapping buffers are not modelled.
- SecretBox.CryptoSecretboxOpen: the same restriction on overlap as for the box.
- Signer.CryptoSign: the output buffer differs from the message and the key; the source would read bytes it has just overwritten.
- Signer.CryptoSignOpen: the output buffer differs from the signed message and the key, for the same reason.
- Signer.CryptoSignKeypair: the random bytes are a parameter, absent when the generator fails; what a failing generator leaves in the secret key is not modelled.
- X25519.CryptoScalarmult: the windows `x + 16` to `x + 64` of the source's scratch array are separate arrays.
- Montgomery.SpecIsMultiple: the multiples are those of doubling and differential addition; that they are multiples in the group of the Montgomery curve needs its associativity and is proved for one round only.
- Sha512.CryptoHash: message lengths are below 2^64, as in the source, so the 2^128 limit of FIPS 180-4 is not reached.
- Drng.HardwarePublished: about a self-test other than the one in the source, which calls `drng_init` again.
- Drng.OnceOnly: the atomics are sequentially consistent; the acquire and release orders are not modelled.
- Null pointers: arrays are non-null, except the message of the stream ciphers, where null means zeros.
- Constant-time behaviour, compiler barriers, `volatile` and `secure_zero`: not functional behaviour.
- `crypto_box`, `crypto_box_open` and the key wrappers: compositions of the modelled functions; that both sides derive the same key needs the commutativity of X25519, which is not proved.
- Sign.RfcVerifies: the verification equation without the cofactor 8, which section 5.1.7 of RFC 8032 allows.
- Associativity of the addition law, primality of p and the order of the base point: hypotheses, as listed above.
- `drng_fill` beyond what the self-test does, the health tests, the feature queries and `drng_reset_for_testing`.
- Which hardware instruction the probe executes, and its retries: one bit of the environment.
- `randombytes`, key generation for boxes and all other input and output.
- The per-architecture Salsa20 variants, the FIPS wrappers, the post-quantum placeholders, the bindings and the self-tests.
