# Verified model of the delivery server's engines

The server bundles three engines. Each is modelled in Dafny as the source writes it, with in-place arrays, running
indices and machine-width arithmetic, and proved against an independent mathematical description.

**Kyber-512 lattice arithmetic** (FIPS 203 sections 4.2, 4.3 and 5). The in-place transforms are proved equal to a
recursive splitting of X^256 + 1, every intermediate value stays in 16 bits, and transform, multiply and transform back
is multiplication in Z_q[X]/(X^256 + 1). Packing, compression, and sampling have their round trips, error bounds and
bit counts. The main result is exact: decryption returns the message if and only if an explicit noise polynomial stays
within given bounds (`KPkeCorrect.DecryptionTheorem`), for any hash and output functions; the methods run on the Keccak
state below, and meet the theorem in `KPkeCorrect.RoundTrip`. Which bytes they produce is stated apart from the code: every
bit field of keys, ciphertexts and messages is that of algorithms 13 to 15 of FIPS 203, down to the sponge on literal inputs
(`KPkeStandard`).
Files: Arithmetic, Words, ModQ, Reduce, Zetas, Ring, Transform, Ntt, InvNtt, Basemul, Poly, RqAlgebra, RingProduct, Bits, Packing,
Compress, Cbd, Sampling, Fields, KPke, KPkeCorrect, KPkeStandard.

**Keccak sponge** (FIPS 202). The unrolled permutation equals 24 applications of the five step mappings, whose constants
are those of the standard. Absorbing and squeezing do not depend on how the calls are cut, the block-wise fast paths
agree with the incremental ones, and all of them compute the sponge function of the standard (`Shake.SpongeTheorem`).
Files: KeccakF, Sponge, SpongeBlocks, Shake, and KyberSymmetric, the encryption's primitives built on it.

**QR Code encoder** (ISO/IEC 18004). Field arithmetic, Reed-Solomon division, block interleaving, function modules, the
zigzag scan, masking, the penalty score, the bit stream and the choice of version, level and mask each have their own
results. They meet in one: a symbol read back (unmask, scan, de-interleave, parse) gives every character that was encoded,
and encoding a text succeeds exactly when some version in the range can hold it (`Symbol.EncodedTheorem`,
`EncodeText.EncodeText`). What the symbol looks like is stated apart from the code as well: the fields of the bit stream
(`StreamFormat`), the code words of format and version (`FormatWords`), each module by the figures of the standard (`Figure`),
and the penalty module by module (`PenaltyRules`). The C version with packed bits and reused buffers is the main model; the
C++ version is modelled where it differs, and proved to agree.
Files: Grid, BitBuffer, GF256, ReedSolomon, Interleave, Versions, FunctionModules, CellSets, RoomCount, Zigzag, LightModules,
Masking, MaskChoice, FormatWords, Penalty, PenaltyRules, Segments, SegmentStream, Encode, StreamFormat, Symbol, Figure, EncodeText,
QrCodeClass.

Conventions. Kyber code uses `int16`, `uint8` and `uint16` as subset types of the integers, and wraps explicitly where C
converts; lanes and bytes of Keccak and of the QR encoder are bit vectors. A method that changes an array is specified by
a function of the old contents, and the lemmas are about that function. `hide` statements keep definitions out of proofs
that do not need them. Check everything with `dafny verify dfyconfig.toml`.

Client/Crypto holds the same files as Server/Server/source/Crypto, and a second copy of qrcodegen.c lies under
QR-Code-generator-master; each is modelled once.

## Model

| member | source | states |
|---|---|---|
| `Reduce.MontgomeryReduceCorrect` | Server/Server/source/Crypto/reduce.c:16-23 | for every 32-bit input in the documented domain the 16-bit result lies strictly between -q and q and is congruent to a · R^-1 |
| `Reduce.BarrettReduceCorrect` | Server/Server/source/Crypto/reduce.c:35-42 | for every 16-bit input the result is the centred residue, within [-1664, 1664] |
| `Zetas.ZetaIsPower` | Server/Server/source/Crypto/ntt.c:39-56 | every table entry is 17 to the bit-reversed index, times R, modulo q |
| `Zetas.ZetaFacts` | Server/Server/source/Crypto/ntt.c:39-56 | the entry at a tree node squares to the modulus of that node, and its product with the mirrored entry of the same layer is -1: the pairing that invntt relies on |
| `Zetas.LeafModulus` | Server/Server/source/Crypto/ntt.c:39-56 | the modulus at leaf i is X^2 - 17^(2 BitRev7(i) + 1), the list of FIPS 203 section 4.3 |
| `Ntt.FqmulZeta` | Server/Server/source/Crypto/ntt.c:68-70 | fqmul by a table entry never overflows and multiplies by the power of 17 with the R removed |
| `Ntt.NttBlock` | Server/Server/source/Crypto/ntt.c:88-92 | one block of butterflies turns its stretch of the array into lower and upper halves and leaves the rest |
| `Ntt.Ntt` | Server/Server/source/Crypto/ntt.c:80-95 | the triple loop, with its running twiddle index, computes the recursively split transform in place |
| `Ntt.NttNodeCorrect` | Server/Server/source/Crypto/ntt.c:80-95 | every node of the splitting tree holds the residue of the input, and after l layers values grew by at most l (q - 1), so no int16 operation overflows |
| `Ntt.NttCorrect` | Server/Server/source/Crypto/ntt.c:80-95 | all 128 residues in bit-reversed order, bounded by the input bound plus 7 (q - 1) |
| `Ntt.NttResidues` | Server/Server/source/Crypto/ntt.c:80-95 | entries 2i and 2i + 1 are the coefficients of the input modulo X^2 - 17^(2 BitRev7(i) + 1), by an independent definition of remainder |
| `InvNtt.InvLayerPass` | Server/Server/source/Crypto/ntt.c:111-121 | one layer of the inverse, twiddles taken backwards, turns level 2top of the tree into level top |
| `InvNtt.InvNtt` | Server/Server/source/Crypto/ntt.c:106-126 | the loops and the final scaling compute the recursively merged inverse in place |
| `InvNtt.InvNodeCorrect` | Server/Server/source/Crypto/ntt.c:106-121 | every layer boundary of the inverse stays below q in absolute value and holds the merged values modulo q |
| `InvNtt.InvNttCorrect` | Server/Server/source/Crypto/ntt.c:106-126 | the result is the inverse transform times R, each coefficient below q; rests on f = 1441 being R^2/128 |
| `RingProduct.InvNttAfterNtt` | Server/Server/source/Crypto/poly.c:261-279 | invntt after ntt is multiplication by R = 2^16 modulo q, for all coefficients below q |
| `Transform.ResidueIsRemainder` | Server/Server/source/Crypto/ntt.c:80-95 | repeated folding by X^2n - z^2 = (X^n - z)(X^n + z) is the remainder modulo the node polynomial, at every node |
| `Transform.NttMul` | Server/Server/source/Crypto/ntt.c:139-146 | the transform carries products in Z_q[X]/(X^256 + 1) to products in the 128 quadratic rings |
| `Transform.InverseLeft` | Server/Server/source/Crypto/ntt.c:106-126 | the inverse transform undoes the transform modulo q |
| `Transform.InverseRight` | Server/Server/source/Crypto/ntt.c:106-126 | the transform undoes the inverse transform: every sequence of 256 is a transform |
| `Basemul.Basemul` | Server/Server/source/Crypto/ntt.c:139-146 | writes exactly one pair of entries |
| `Basemul.PolyBasemul` | Server/Server/source/Crypto/poly.c:290-297 | the loop over zetas[64 + i] and their negatives multiplies pair by pair |
| `Basemul.PairZetaValue` | Server/Server/source/Crypto/poly.c:290-297 | the alternating signs of zetas[64 + i] are the leaf moduli in order |
| `Basemul.BasemulCorrect` | Server/Server/source/Crypto/ntt.c:139-146 | the pairwise products modulo X^2 - zeta times R^-1, each coefficient within 2q |
| `Poly.PolyReduce` | Server/Server/source/Crypto/poly.c:323-328 | Barrett reduction of every coefficient in place |
| `Poly.PolyTomont` | Server/Server/source/Crypto/poly.c:307-313 | multiplies every coefficient by R^2 and reduces |
| `Poly.PolyAdd` | Server/Server/source/Crypto/poly.c:339-344 | adds coefficient by coefficient with int16 wrap-around, also in place |
| `Poly.PolySub` | Server/Server/source/Crypto/poly.c:355-360 | subtracts coefficient by coefficient with int16 wrap-around |
| `Poly.PolyVecBasemulAcc` | Server/Server/source/Crypto/polyvec.c:202-214 | accumulates the two products and reduces |
| `RingProduct.AccCorrect` | Server/Server/source/Crypto/polyvec.c:202-214 | the accumulated sum stays in int16 range before reduction and is the scalar product of transforms times R^-1 |
| `RingProduct.TomontCorrect` | Server/Server/source/Crypto/poly.c:307-313 | poly_tomont cancels the R^-1 left by a product |
| `RingProduct.ProductTheorem` | Server/Server/source/Crypto/poly.c:261-297 | transform, basemul, reduce, inverse transform is the negacyclic product a·b in Z_q[X]/(X^256 + 1): R^-1 and R cancel exactly (FIPS 203 sections 4.3 and 4.3.1) |
| `RingProduct.ScalarProductTheorem` | Server/Server/source/Crypto/polyvec.c:170-214 | the same for the scalar product of two vectors |
| `RqAlgebra.PointMulAssociative` | Server/Server/source/Crypto/ntt.c:139-146 | pointwise products of transforms are associative |
| `RqAlgebra.PointMulDistributive` | Server/Server/source/Crypto/ntt.c:139-146 | and distribute over addition |
| `RqAlgebra.InvNttOfPlus` | Server/Server/source/Crypto/ntt.c:106-126 | the inverse transform is additive |
| `RqAlgebra.NttOfPlus` | Server/Server/source/Crypto/ntt.c:80-95 | the transform is additive |
| `Packing.CanonicalResidue` | Server/Server/source/Crypto/poly.c:132-135 | adding q to negative values gives the canonical residue |
| `Packing.PolyToBytes` | Server/Server/source/Crypto/poly.c:124-139 | two coefficients to three bytes, nothing else written |
| `Packing.PolyFromBytes` | Server/Server/source/Crypto/poly.c:151-158 | three bytes to two coefficients |
| `Packing.FromBytesToBytes` | Server/Server/source/Crypto/poly.c:124-158 | frombytes after tobytes gives the canonical residue, for all coefficients below q in absolute value |
| `Packing.ToBytesFromBytes` | Server/Server/source/Crypto/poly.c:124-158 | tobytes after frombytes is the identity on every string of 384 bytes |
| `Packing.PolyFromMsg` | Server/Server/source/Crypto/poly.c:168-182 | each message bit becomes 0 or 1665 |
| `Packing.PolyToMsg` | Server/Server/source/Crypto/poly.c:192-211 | the loops collect one bit per coefficient |
| `Packing.MsgBitRounds` | Server/Server/source/Crypto/poly.c:200-207 | on centred residues the multiply-and-shift form yields one exactly outside [-832, 832] |
| `Packing.ToMsgFromBits` | Server/Server/source/Crypto/poly.c:192-211 | a polynomial whose coefficients decode to the bits of m gives m |
| `Packing.MsgByteBit` | Server/Server/source/Crypto/poly.c:192-211 | conversely bit j of byte i is the decoded coefficient 8i + j |
| `Fields.FromBytesFields` | Server/Server/source/Crypto/poly.c:151-158 | coefficient i is the number in bits 12i to 12i + 11 of the string, least significant first: ByteDecode of FIPS 203 section 4.2.1 |
| `Fields.ToBytesFields` | Server/Server/source/Crypto/poly.c:124-139 | and those bits of the serialized polynomial are the canonical residue of coefficient i |
| `Fields.FromMsgFields` | Server/Server/source/Crypto/poly.c:168-182 | coefficient p is 1665 times bit p of the message |
| `Fields.ToMsgFields` | Server/Server/source/Crypto/poly.c:192-211 | bit p of the message is 2x/q rounded, modulo 2, for the residue x of coefficient p |
| `Compress.Compress4Rounds` | Server/Server/source/Crypto/poly.c:26-46 | the uint32 multiply-and-shift with its wrap equals rounding of 16x/q modulo 16, for every coefficient below q (FIPS 203 section 4.2.1) |
| `Compress.Compress10Rounds` | Server/Server/source/Crypto/polyvec.c:50-76 | the uint64 form equals rounding of 1024x/q modulo 1024 |
| `Compress.Compress4Inverse` | Server/Server/source/Crypto/poly.c:83-92 | compress after decompress is the identity on 4-bit values |
| `Compress.Compress10Inverse` | Server/Server/source/Crypto/polyvec.c:89-128 | and on 10-bit values |
| `Compress.Compress4Error` | Server/Server/source/Crypto/poly.c:26-96 | decompress after compress moves a coefficient by at most 104 modulo q |
| `Compress.Compress10Error` | Server/Server/source/Crypto/polyvec.c:50-128 | by at most 2 modulo q |
| `Compress.PolyCompress` | Server/Server/source/Crypto/poly.c:26-46 | eight coefficients to four bytes per step, nothing else written |
| `Compress.PolyDecompress` | Server/Server/source/Crypto/poly.c:83-92 | one byte to two coefficients |
| `Compress.CompressDecompress4` | Server/Server/source/Crypto/poly.c:26-96 | compress after decompress is the identity on every string of 128 bytes |
| `Compress.DecompressCompress4` | Server/Server/source/Crypto/poly.c:26-96 | decompress after compress acts on each coefficient alone |
| `Compress.PolyCompress10` | Server/Server/source/Crypto/polyvec.c:50-76 | four coefficients to five bytes per step |
| `Compress.PolyDecompress10` | Server/Server/source/Crypto/polyvec.c:107-127 | five bytes to four coefficients |
| `Compress.CompressDecompress10` | Server/Server/source/Crypto/polyvec.c:50-128 | compress after decompress is the identity on every string of 320 bytes |
| `Compress.DecompressCompress10` | Server/Server/source/Crypto/polyvec.c:50-128 | the five-byte packing loses nothing: each coefficient comes back as its own decompressed value |
| `Fields.CompressTenFields` | Server/Server/source/Crypto/polyvec.c:50-76 | bits 10i to 10i + 9 are 1024x/q rounded, modulo 1024, for the residue x of coefficient i |
| `Fields.DecompressTenFields` | Server/Server/source/Crypto/polyvec.c:107-127 | coefficient i is q t/1024 rounded to the nearest integer, halves upwards, for the number t in bits 10i to 10i + 9 |
| `Fields.CompressFourFields` | Server/Server/source/Crypto/poly.c:26-46 | bits 4i to 4i + 3 are 16x/q rounded, modulo 16 |
| `Fields.DecompressFourFields` | Server/Server/source/Crypto/poly.c:83-92 | coefficient i is q t/16 rounded, for the number t in bits 4i to 4i + 3 |
| `Cbd.Cbd2` | Server/Server/source/Crypto/cbd.c:58-75 | the loops write, at every coefficient, the difference of two counts of two bits of the buffer |
| `Cbd.Cbd3` | Server/Server/source/Crypto/cbd.c:89-107 | the same with counts of three bits |
| `Cbd.PairField` | Server/Server/source/Crypto/cbd.c:66-67 | adding the two masked words sums each field of two bits with no carry into the next |
| `Cbd.TripleField` | Server/Server/source/Crypto/cbd.c:97-99 | the same for fields of three bits |
| `Cbd.Cbd2Correct` | Server/Server/source/Crypto/cbd.c:65-73 | the fields of a 32-bit word are bit counts of the buffer, for every buffer |
| `Cbd.Cbd3Correct` | Server/Server/source/Crypto/cbd.c:96-105 | the fields of a 24-bit word are bit counts of the buffer, for every buffer |
| `Sampling.CandidateValues` | Server/Server/source/Crypto/indcpa.c:130-132 | the two candidates of three bytes are the 12-bit values that frombytes reads |
| `Sampling.RejUniform` | Server/Server/source/Crypto/indcpa.c:121-142 | takes the accepted candidates in order until len are found or the buffer ends, and leaves the rest of r alone |
| `Sampling.AcceptSplit` | Server/Server/source/Crypto/indcpa.c:121-142 | candidates of a concatenation, cut at a multiple of three bytes, are those of the parts: block splitting does not matter |
| `Sampling.SampleIs` | Server/Server/source/Crypto/indcpa.c:173-189 | the 256 coefficients are the same from any prefix that is long enough |
| `Sampling.SampleCanonical` | Server/Server/source/Crypto/indcpa.c:121-142 | every sampled coefficient is canonical |
| `Fields.AcceptFields` | Server/Server/source/Crypto/indcpa.c:121-142 | the accepted candidates are the fields of twelve bits below q, in order: SampleNTT of FIPS 203 section 4.2.2 |
| `Sampling.SampleEntry` | Server/Server/source/Crypto/indcpa.c:173-189 | absorbs seed and indices, squeezes first the fixed number of blocks, then one block at a time: the entry is the first 256 accepted candidates of the whole SHAKE128 output, and the loop ends |
| `Sampling.GenMatrix` | Server/Server/source/Crypto/indcpa.c:165-190 | all four entries, with the index order given by `transposed` |
| `KPkeCorrect.Transposed` | Server/Server/source/Crypto/indcpa.c:144-175 | gen_at is the transpose of gen_a |
| `KPke.PackPk` | Server/Server/source/Crypto/indcpa.c:23-29 | vector bytes followed by the seed |
| `KPke.UnpackPk` | Server/Server/source/Crypto/indcpa.c:41-47 | reads them back |
| `KPke.PackCiphertext` | Server/Server/source/Crypto/indcpa.c:86-90 | compressed vector followed by compressed polynomial |
| `KPke.UnpackCiphertext` | Server/Server/source/Crypto/indcpa.c:102-106 | decompresses both |
| `KPke.GetNoiseVec1` | Server/Server/source/Crypto/indcpa.c:222-225 | noise polynomials from the SHAKE256 output for seed and successive nonces |
| `KPke.KeyPair` | Server/Server/source/Crypto/indcpa.c:205-241 | on the Keccak state: writes the public key t = A s + e with its seed, and the secret key, both as functions of the coins; `KPkeStandard.KeyGeneration` says which bytes these are |
| `KPke.Enc` | Server/Server/source/Crypto/indcpa.c:260-299 | on the Keccak state: the whole ciphertext as a function of key, message and coins; `KPkeStandard.Encryption` says which bytes these are |
| `KPke.Dec` | Server/Server/source/Crypto/indcpa.c:314-332 | the message as a function of ciphertext and secret key; `KPkeStandard.Decryption` says which bytes these are |
| `KPkeStandard.KeyGeneration` | Server/Server/source/Crypto/indcpa.c:205-241 | algorithm 13 of FIPS 203, field by field. With sponge output on the coins and the byte 2 (rate 72, domain 0x06): bytes 768 to 799 of the public key are output bytes 0 to 31 in order; its twelve-bit fields are (A s + e)[p] modulo q; the fields of the secret key are the transform of s. The noise is counted from SHAKE256 output (rate 136) for output bytes 32 to 63 and the nonces 0 and 1 for s, 2 and 3 for e; entry (i, j) of A is sampled from SHAKE128 output (rate 168) for the seed, j and i |
| `KPkeStandard.Encryption` | Server/Server/source/Crypto/indcpa.c:260-299 | algorithm 14: the ten-bit fields are A^T r + e1 scaled to 1024 steps and rounded, the four-bit fields t r + e2 + 1665 m scaled to 16 steps and rounded; t and the seed are read off the public key, and the nonces are 0 and 1 for r, 2 and 3 for e1, 4 for e2 |
| `KPkeStandard.Decryption` | Server/Server/source/Crypto/indcpa.c:314-332 | algorithm 15: bit p of the message is coefficient p of v - s u, scaled to two steps and rounded, where u and v are the fields of the ciphertext scaled back and s is read off the secret key |
| `KPkeStandard.SeedsAre` | Server/Server/source/Crypto/indcpa.c:211-218 | the public seed is the first half of the digest, the noise seed the second |
| `KPkeStandard.RowIs` | Server/Server/source/Crypto/indcpa.c:144-175 | row i of gen_a holds entries (i, 0) and (i, 1), row i of gen_at entries (0, i) and (1, i), each sampled from the sponge output for the seed and the two index bytes |
| `KPkeCorrect.MatrixSwap` | Server/Server/source/Crypto/indcpa.c:205-299 | (A s) · r = s · (A^T r), exactly, in the product of quadratic rings |
| `KPkeCorrect.KeyProduct` | Server/Server/source/Crypto/indcpa.c:205-299 | the public key multiplied by r is s · (A^T r) + e · r |
| `KPkeCorrect.ReceivedKeyCorrect` | Server/Server/source/Crypto/indcpa.c:41-47 | the key that encryption unpacks is A s + e |
| `KPkeCorrect.EncryptPolyCorrect` | Server/Server/source/Crypto/indcpa.c:260-299 | v = s · (A^T r) + e · r + e2 + message, with no overflow on the way |
| `KPkeCorrect.DecryptedPolyTheorem` | Server/Server/source/Crypto/indcpa.c:205-332 | for every key seed, message and coins the polynomial given to poly_tomsg is 1665 m + (e·r + e2 + dv - s·(e1 + du)) modulo q (FIPS 203 sections 5.1 to 5.3) |
| `KPkeCorrect.DecryptionTheorem` | Server/Server/source/Crypto/indcpa.c:205-332 | indcpa_dec returns the message if and only if the centred noise at every coefficient lies in [-832, 832] for a zero bit and [-832, 831] for a one bit |
| `KPkeCorrect.RoundTrip` | Server/Server/source/Crypto/indcpa.c:205-332 | key generation, encryption and decryption one after the other, down to the permutation, return the message under exactly that condition |
| `KPkeCorrect.DecryptionSucceeds` | Server/Server/source/Crypto/indcpa.c:314-332 | in particular whenever it lies in [-832, 831] everywhere |
| `KPkeCorrect.CompressionErrors` | Server/Server/source/Crypto/indcpa.c:86-106 | the compression part of the noise is at most 2 in u and 104 in v |
| `KeccakF.EvenRound` | Server/Server/source/Crypto/fips202.c:127-220 | the first half of the unrolled body, from the lanes A to the lanes E, is iota after chi, pi, rho and theta |
| `KeccakF.OddRound` | Server/Server/source/Crypto/fips202.c:222-315 | the second half, with the lane names exchanged, is the next round |
| `KeccakF.KeccakF1600StatePermute` | Server/Server/source/Crypto/fips202.c:82-344 | the loop is the 24-round permutation of FIPS 202 section 3.3 for every state of 25 lanes |
| `KeccakF.PlaneIs` | Server/Server/source/Crypto/fips202.c:140-220 | five moved lanes give one plane of the next state |
| `KeccakF.RhoOffsets` | Server/Server/source/Crypto/fips202.c:82-344 | the rotation constants are those of algorithm 2 of FIPS 202 |
| `KeccakF.RoundConstants` | Server/Server/source/Crypto/fips202.c:47-73 | the 24 round constants are the output of the shift register of algorithm 5 of FIPS 202 |
| `Sponge.KeccakAbsorb` | Server/Server/source/Crypto/fips202.c:373-393 | any number of bytes at any position; keeps pos below the rate |
| `Sponge.AbsorbSplit` | Server/Server/source/Crypto/fips202.c:373-393 | absorbing in two calls is absorbing the concatenation |
| `Sponge.AbsorbChunks` | Server/Server/source/Crypto/fips202.c:373-393 | so is any sequence of calls |
| `Sponge.KeccakFinalize` | Server/Server/source/Crypto/fips202.c:405-409 | domain byte at the position, final bit at the end of the block |
| `Sponge.KeccakSqueeze` | Server/Server/source/Crypto/fips202.c:426-446 | writes the next outlen bytes of the stream and nothing else; keeps pos at most the rate |
| `Sponge.AfterStream` | Server/Server/source/Crypto/fips202.c:426-446 | squeezing goes on with the same stream |
| `Sponge.SqueezedSplit` | Server/Server/source/Crypto/fips202.c:426-446 | two squeeze calls yield the bytes of one |
| `Sponge.SqueezeChunks` | Server/Server/source/Crypto/fips202.c:426-446 | any sequence of lengths yields the bytes of one call for the total |
| `SpongeBlocks.Load64` | Server/Server/source/Crypto/fips202.c:22-30 | eight bytes, lowest first |
| `SpongeBlocks.Store64` | Server/Server/source/Crypto/fips202.c:40-45 | writes the eight bytes of a lane and nothing else |
| `SpongeBlocks.XorLaneIs` | Server/Server/source/Crypto/fips202.c:473-477 | or-ing bytes into a word and xor-ing the word equals xor-ing byte by byte |
| `SpongeBlocks.KeccakAbsorbOnce` | Server/Server/source/Crypto/fips202.c:461-485 | the block-wise fast path reaches the state of the incremental absorb followed by finalize |
| `SpongeBlocks.KeccakSqueezeBlocks` | Server/Server/source/Crypto/fips202.c:500-514 | the block-wise output is a prefix of the same stream, and leaves the state where squeeze can go on |
| `Shake.KeccakState.constructor` | Server/Server/source/Crypto/fips202.c:523-527 | an empty message |
| `Shake.KeccakState.Absorb` | Server/Server/source/Crypto/fips202.c:538-541 | the absorbed message grows by the input |
| `Shake.KeccakState.Finalize` | Server/Server/source/Crypto/fips202.c:550-554 | turns absorbing into squeezing at the start of the output |
| `Shake.KeccakState.Squeeze` | Server/Server/source/Crypto/fips202.c:566-569 | the next bytes of the output of the whole message |
| `Shake.KeccakState.AbsorbOnce` | Server/Server/source/Crypto/fips202.c:580-584 | the same state as absorb and finalize |
| `Shake.KeccakState.SqueezeBlocks` | Server/Server/source/Crypto/fips202.c:598-601 | the next whole blocks of the same output |
| `Shake.OneShot` | Server/Server/source/Crypto/fips202.c:700-734 | block squeezing followed by partial squeezing is one prefix of the output |
| `Shake.Shake128` | Server/Server/source/Crypto/fips202.c:700-711 | the first outlen bytes at rate 168 |
| `Shake.Shake256` | Server/Server/source/Crypto/fips202.c:723-734 | the first outlen bytes at rate 136 |
| `Shake.Sha3_256` | Server/Server/source/Crypto/fips202.c:745-754 | 32 bytes at rate 136 with domain byte 0x06 |
| `Shake.Sha3_512` | Server/Server/source/Crypto/fips202.c:765-774 | 64 bytes at rate 72 with domain byte 0x06 |
| `Shake.SpongeTheorem` | Server/Server/source/Crypto/fips202.c:353-514 | the output is the sponge function of FIPS 202 sections 4 and 5.1: pad, absorb whole blocks, squeeze whole blocks |
| `KyberSymmetric.Shake128Absorb` | Server/Server/source/Crypto/symmetric-shake.c:18-30 | the state has absorbed the seed and the two index bytes |
| `KyberSymmetric.XofBlocks` | Server/Server/source/Crypto/symmetric.h:32-33 | the squeezed blocks continue the stream that matrix sampling reads |
| `KyberSymmetric.Shake256Prf` | Server/Server/source/Crypto/symmetric-shake.c:43-51 | the noise bytes are the output for key and nonce |
| `KyberSymmetric.Shake256Rkprf` | Server/Server/source/Crypto/symmetric-shake.c:64-73 | absorbing key and input one after the other gives the output for both together |
| `KyberSymmetric.HashG` | Server/Server/source/Crypto/symmetric.h:31 | hash_g is the SHA3-512 digest |
| `GF256.ReedSolomonMultiply` | Server/Server/lib/qrcodegen.c:405-413 | the loop over the bits of y, highest first, computes the field product |
| `GF256.MulIsRemainder` | Server/Server/lib/qrcodegen.c:405-413 | it is the carry-less polynomial product modulo 0x11D, for all bytes |
| `GF256.MulCommutative` | Server/Server/lib/qrcodegen.c:405-413 | commutative for all bytes |
| `GF256.MulAssociative` | Server/Server/lib/qrcodegen.c:405-413 | associative for all bytes |
| `GF256.MulAddLeft` | Server/Server/lib/qrcodegen.c:405-413 | distributes over xor |
| `GF256.NoZeroDivisors` | Server/Server/lib/qrcodegen.c:405-413 | a product is zero only if a factor is: 0x11D is irreducible |
| `ReedSolomon.ComputeDivisor` | Server/Server/lib/qrcodegen.c:361-381 | the nested loops compute the divisor polynomial without its leading one |
| `ReedSolomon.DivisorIsProduct` | Server/Server/lib/qrcodegen.c:361-381 | the divisor is the product of (x - 2^i) for i below the degree, at every x |
| `ReedSolomon.ComputeRemainder` | Server/Server/lib/qrcodegen.c:387-398 | the shift-and-xor loop, also when data and result share one array |
| `ReedSolomon.DivisionTheorem` | Server/Server/lib/qrcodegen.c:387-398 | data followed by the remainder is quotient times divisor, for every divisor |
| `ReedSolomon.CodewordVanishes` | Server/Server/lib/qrcodegen.c:361-398 | data with its remainder vanishes at 2^0, ..., 2^(degree - 1), for every data and degree |
| `ReedSolomon.RemainderUnique` | Server/Server/lib/qrcodegen.c:387-398 | the remainder is the only completion of the data to a multiple of the divisor, for every divisor |
| `ReedSolomon.RootsDistinct` | Server/Server/lib/qrcodegen.c:361-381 | the roots 2^0, ..., 2^29 are distinct |
| `ReedSolomon.VanishesEverywhere` | Server/Server/lib/qrcodegen.c:361-398 | a polynomial with n coefficients that vanishes at the first n roots is zero |
| `ReedSolomon.OnlyCompletion` | Server/Server/lib/qrcodegen.c:361-398 | data followed by other bytes vanishes at all roots if and only if those bytes are the remainder, for every data and every degree up to 30 |
| `Interleave.PositionAt` | Server/Server/lib/qrcodegen.c:297-325 | every codeword has its own index below rawCodewords |
| `Interleave.AtPosition` | Server/Server/lib/qrcodegen.c:297-325 | every index is taken by exactly one codeword |
| `Interleave.CodewordOrder` | Server/Server/lib/qrcodegen.c:297-325 | indices follow the standard: all data before all error correction, in each by place within the block and then by block |
| `Interleave.BlockLengths` | Server/Server/lib/qrcodegen.c:302-312 | blocks differ by at most one data byte, the longer ones last |
| `Interleave.AddEccAndInterleave` | Server/Server/lib/qrcodegen.c:297-325 | scratch bytes behind the data never clobber unread data, and the result is the interleaved sequence, every index written |
| `Interleave.AddEccAndInterleaveRows` | Server/Server/source/QRGenerator/qrcodegen.cpp:498-533 | the C++ version with padded blocks gives the same sequence, and refuses data of any other length |
| `Interleave.DeinterleaveInterleave` | Server/Server/lib/qrcodegen.c:297-325 | de-interleaving recovers every block with its error correction |
| `Interleave.BlockVanishes` | Server/Server/lib/qrcodegen.c:297-325 | each recovered block is a Reed-Solomon codeword |
| `Interleave.BlocksJoin` | Server/Server/lib/qrcodegen.c:297-325 | the blocks in order are the data |
| `Versions.LayoutValid` | Server/Server/lib/qrcodegen.c:103-119 | for all 40 versions and 4 levels the tables give a usable layout whose data length is getNumDataCodewords |
| `Versions.CapacityIs` | Server/Server/lib/qrcodegen.c:103-119 | for all versions and levels the tables give the number of data codewords that table 7 of ISO/IEC 18004 lists |
| `Grid.GetModule` | Server/Server/lib/qrcodegen.c:772-777 | reads one bit of the packed grid |
| `Grid.SetModule` | Server/Server/lib/qrcodegen.c:781-791 | changes exactly one module |
| `FunctionModules.GetAlignmentPatternPositions` | Server/Server/lib/qrcodegen.c:553-562 | fills the positions from the last to the first; `FunctionModules.AlignPositions` lists them |
| `FunctionModules.AlignPositions` | Server/Server/lib/qrcodegen.c:553-562 | for all 40 versions the positions are those of table E.1 of ISO/IEC 18004, written out |
| `FunctionModules.AlignInside` | Server/Server/lib/qrcodegen.c:553-562 | alignment patterns stay inside the grid for every version |
| `FunctionModules.FillRectangle` | Server/Server/lib/qrcodegen.c:566-571 | darkens the rectangle and nothing else |
| `FunctionModules.InitializeFunctionModules` | Server/Server/lib/qrcodegen.c:421-452 | marks exactly the function modules, by a description in coordinates |
| `RoomCount.AlignFar` | Server/Server/lib/qrcodegen.c:553-562 | centres of alignment patterns are at least twelve modules apart |
| `RoomCount.MarkedPiece` | Server/Server/lib/qrcodegen.c:421-452 | the marks of any version split into ten disjoint pieces, each a set of rows crossed with a set of columns |
| `RoomCount.MarksTotal` | Server/Server/lib/qrcodegen.c:342-353 | their sizes add up to size^2 minus getNumRawDataModules |
| `RoomCount.RoomTheorem` | Server/Server/lib/qrcodegen.c:342-353 | for every version the scan of drawCodewords meets exactly getNumRawDataModules unmarked modules |
| `Zigzag.ScanVisits` | Server/Server/lib/qrcodegen.c:579-602 | the scan reaches every cell outside column 6 |
| `Zigzag.ScanStarts` | Server/Server/lib/qrcodegen.c:579-602 | the scan starts at the module in the lower right corner |
| `Zigzag.ScanOrder` | Server/Server/lib/qrcodegen.c:579-602 | from there every even step goes to the left neighbour in the same row, every odd step to an adjacent row in the right column again, and at the end of a column pair to the pair on its left in the same row, with column 6 left out |
| `Zigzag.ScanRows` | Server/Server/lib/qrcodegen.c:584-588 | the first pair of columns is scanned upwards, the next one downwards, and so on |
| `Zigzag.ScanOnce` | Server/Server/lib/qrcodegen.c:579-602 | and each at one time only |
| `Zigzag.VisitedOnce` | Server/Server/lib/qrcodegen.c:579-602 | no two steps visit the same cell |
| `Zigzag.NotYetDrawn` | Server/Server/lib/qrcodegen.c:579-602 | a cell is untouched until its step, so the grid being written can serve as its own mask |
| `Zigzag.MarkedUnchanged` | Server/Server/lib/qrcodegen.c:579-602 | marked cells never change |
| `Zigzag.ColumnSixUnchanged` | Server/Server/lib/qrcodegen.c:579-602 | neither does column 6 |
| `Zigzag.DrawCodewords` | Server/Server/lib/qrcodegen.c:579-602 | the loops draw bit k at the k-th unmarked cell of the scan, whose order `Zigzag.ScanOrder` describes |
| `Zigzag.ReadDrawn` | Server/Server/lib/qrcodegen.c:579-602 | scanning the drawn grid again reads the codewords back |
| `LightModules.SetModuleUnbounded` | Server/Server/lib/qrcodegen.c:795-799 | changes one module, or none if outside |
| `LightModules.DrawLightFunctionModules` | Server/Server/lib/qrcodegen.c:458-513 | timing, finder and alignment patterns and version information, each module by coordinates |
| `LightModules.LitUnmarked` | Server/Server/lib/qrcodegen.c:458-513 | only function modules are drawn |
| `LightModules.RingOnce` | Server/Server/lib/qrcodegen.c:481-492 | rings of different alignment patterns never meet |
| `LightModules.VersionBitsFit` | Server/Server/lib/qrcodegen.c:497-501 | version and remainder do not overlap in the 18 bits |
| `FormatWords.VersionWordMultiple` | Server/Server/lib/qrcodegen.c:495-501 | the 18 bits are a multiple of x^12 + x^11 + x^10 + x^9 + x^8 + x^5 + x^2 + 1 over GF(2) that begins with the version |
| `Masking.ApplyMask` | Server/Server/lib/qrcodegen.c:610-633 | xors the pattern, which `Masking.PatternIsTile` shows as a picture, onto every unmarked module |
| `Masking.MaskTwice` | Server/Server/lib/qrcodegen.c:610-633 | a second application undoes the first |
| `Masking.PatternIsTile` | Server/Server/lib/qrcodegen.c:617-627 | each of the eight patterns is a tile of at most twelve by twelve modules, given as a picture, repeated in both directions |
| `MaskChoice.DrawFormatBits` | Server/Server/lib/qrcodegen.c:519-546 | the 31 writes, in order |
| `MaskChoice.FormatBitsFit` | Server/Server/lib/qrcodegen.c:523-528 | level, mask and remainder take fifteen bits and no more |
| `FormatWords.FormatWordMultiple` | Server/Server/lib/qrcodegen.c:519-528 | without the constant mask the 15 bits are a multiple of x^10 + x^8 + x^5 + x^4 + x^2 + x + 1 over GF(2) that begins with the level (L 01, M 00, Q 11, H 10) and the mask |
| `MaskChoice.FormatRead` | Server/Server/lib/qrcodegen.c:519-546 | level and mask read off the drawn format modules are the ones drawn |
| `MaskChoice.FormatMarked` | Server/Server/lib/qrcodegen.c:519-546 | every format module is a function module, for every version |
| `MaskChoice.RoundRestores` | Server/Server/lib/qrcodegen.c:271-281 | apply, draw format bits, apply again restores everything but format modules |
| `MaskChoice.TryMask` | Server/Server/lib/qrcodegen.c:272-280 | one iteration scores the finished candidate of its mask and undoes it |
| `MaskChoice.MaskAndFormat` | Server/Server/lib/qrcodegen.c:268-286 | the final grid is the candidate of the first mask of least penalty, or of the requested one |
| `MaskChoice.CandidateUnmarked` | Server/Server/lib/qrcodegen.c:268-286 | every codeword module carries its bit xor exactly one mask |
| `MaskChoice.CandidateMarked` | Server/Server/lib/qrcodegen.c:268-286 | function modules other than format modules are unchanged |
| `Figure.FinderFigure` | Server/Server/lib/qrcodegen.c:458-479 | in a finished symbol the three corners show the finder pattern with its separator, as a picture, mirrored |
| `Figure.TimingFigure` | Server/Server/lib/qrcodegen.c:462-467 | row 6 and column 6 alternate between the finder patterns, dark at even places |
| `Figure.AlignmentFigure` | Server/Server/lib/qrcodegen.c:481-492 | the alignment pattern, as a picture, stands around every pair of listed positions except the three in finder corners |
| `Figure.VersionFigure` | Server/Server/lib/qrcodegen.c:494-513 | from version 7 on bit k of the version word stands in column size - 11 + k mod 3 of row k div 3, and mirrored |
| `Figure.FormatFigure` | Server/Server/lib/qrcodegen.c:530-545 | bit i of the format word stands in both copies where the standard puts it, and the module above the second copy is dark |
| `Figure.CodewordFigure` | Server/Server/lib/qrcodegen.c:579-633 | every other module is its codeword bit, counted along the scan, exclusive-or the tile of the mask |
| `Figure.FunctionAreas` | Server/Server/lib/qrcodegen.c:421-452 | the figures cover the function modules and nothing else |
| `Penalty.ExpandRuns` | Server/Server/lib/qrcodegen.c:643-685 | the maximal runs spell the line |
| `Penalty.BorderedSpells` | Server/Server/lib/qrcodegen.c:718-747 | the runs with border spell the line with a light border added exactly once at each end |
| `Penalty.AddHistory` | Server/Server/lib/qrcodegen.c:742-747 | pushes a run onto the history of seven |
| `Penalty.CountPatternsIs` | Server/Server/lib/qrcodegen.c:718-726 | the window of seven runs sees exactly the patterns that end at the last run |
| `Penalty.TerminateAndCount` | Server/Server/lib/qrcodegen.c:730-738 | the last run and the border |
| `Penalty.ScanEnd` | Server/Server/lib/qrcodegen.c:643-685 | the scan of a line ends with its declarative cost: L - 2 for each run of length L at least 5, and 40 for each finder-like pattern |
| `Penalty.HistoryBound` | Server/Server/lib/qrcodegen.c:718-747 | no run in the history is longer than the line with one border, hence the bound of three sizes that finderPenaltyCountPatterns asserts |
| `Penalty.NotTwice` | Server/Server/lib/qrcodegen.c:718-726 | two consecutive light runs never both end a pattern core |
| `Penalty.LineBound` | Server/Server/lib/qrcodegen.c:643-685 | a line of n modules costs at most n + 40 (n/2 + 3) |
| `Penalty.ImbalanceLeast` | Server/Server/lib/qrcodegen.c:698-710 | the balance term is the least k within 5k percent, between 0 and 9 because the size is odd |
| `Penalty.ScoreBound` | Server/Server/lib/qrcodegen.c:638-713 | every grid scores between 0 and 2568888 |
| `Penalty.GetPenaltyScore` | Server/Server/lib/qrcodegen.c:638-713 | the run-history scanner computes the declarative score |
| `PenaltyRules.LineCostIs` | Server/Server/lib/qrcodegen.c:643-685 | module by module: a line costs three points at every place where five like modules start a run, one at every later place in the run where five follow, and forty for every place of the line in its light border where bands of k, k, 3k, k, k modules start between 4k and k light ones, or k and 4k |
| `PenaltyRules.PatternsAreFinders` | Server/Server/lib/qrcodegen.c:718-726 | the patterns counted over runs are exactly those places |
| `PenaltyRules.ScoreIs` | Server/Server/lib/qrcodegen.c:638-713 | the score is the cost of all rows and columns, three points for every two by two block of one colour, and ten times the least k for which the dark modules make up between 45 - 5k and 55 + 5k per cent |
| `BitBuffer.ValueRoundTrip` | Server/Server/lib/qrcodegen.c:188-192 | a field read back gives the value written |
| `BitBuffer.AppendBits` | Server/Server/lib/qrcodegen.c:188-192 | the buffer holds the old bits followed by the new field, and zeros behind |
| `StreamFormat.GetBitValue` | Server/Server/lib/qrcodegen.c:803-805 | getBit takes the bit of weight 2^k |
| `StreamFormat.BitOfValue` | Server/Server/lib/qrcodegen.c:188-192 | bit i of a buffer is the bit of weight 2^(7 - i mod 8) of byte i div 8 |
| `Segments.ParseNumericBits` | Server/Server/lib/qrcodegen.c:893-923 | digits packed by threes are read back, for every digit string |
| `Segments.ParseAlphanumericBits` | Server/Server/lib/qrcodegen.c:927-957 | characters packed by twos are read back |
| `Segments.ParseByteBits` | Server/Server/lib/qrcodegen.c:878-889 | bytes are read back |
| `StreamFormat.NumericGroup` | Server/Server/lib/qrcodegen.c:893-923 | bits 10k to 10k + 9 are the decimal number of digits 3k to 3k + 2 |
| `StreamFormat.NumericEnd` | Server/Server/lib/qrcodegen.c:893-923 | two digits left over take seven bits, one takes four |
| `StreamFormat.AlphanumericGroup` | Server/Server/lib/qrcodegen.c:927-957 | bits 11k to 11k + 10 are characters 2k and 2k + 1 as a number to base 45 |
| `StreamFormat.AlphanumericEnd` | Server/Server/lib/qrcodegen.c:927-957 | a single character left over takes six bits |
| `StreamFormat.ByteField` | Server/Server/lib/qrcodegen.c:878-889 | byte k takes bits 8k to 8k + 7 |
| `StreamFormat.CharsetValues` | Server/Server/lib/qrcodegen.c:94 | the character set is digits, capital letters and the nine other characters with the values of table 5 of ISO/IEC 18004, and no other character belongs to it |
| `Segments.DigitTextDigits` | Server/Server/lib/qrcodegen.c:893-923 | digit values give the text back |
| `Segments.CharTextValues` | Server/Server/lib/qrcodegen.c:927-957 | charset indices give the text back |
| `SegmentStream.MakeBytes` | Server/Server/lib/qrcodegen.c:878-889 | the segment holds the bytes |
| `SegmentStream.MakeNumeric` | Server/Server/lib/qrcodegen.c:893-923 | the accumulating loop produces the bits of the digits, exactly calcSegmentBitLength many |
| `SegmentStream.MakeAlphanumeric` | Server/Server/lib/qrcodegen.c:927-957 | the accumulating loop produces the bits of the characters |
| `SegmentStream.BitsOfLength` | Server/Server/lib/qrcodegen.c:851-874 | calcSegmentBitLength is exact for all three modes, and marks overflow exactly when the payload is longer than 32767 bits or characters |
| `StreamFormat.SegmentLengths` | Server/Server/lib/qrcodegen.c:851-874 | for every mode and every count: 10/3, 11/2, 8 or 13 bits a character rounded up, 24 for an ECI designator, and the overflow mark from 9831, 5958, 4096 and 2521 characters on |
| `Encode.GetTotalBits` | Server/Server/lib/qrcodegen.c:990-1008 | the length of the bit stream, or the overflow mark exactly when a count does not fit its field or the length exceeds 32767 |
| `Encode.ChooseVersion` | Server/Server/lib/qrcodegen.c:214-224 | the least version in the range that fits, or failure when none does |
| `Encode.BoostLevel` | Server/Server/lib/qrcodegen.c:228-231 | the level after boosting |
| `Encode.BoostedFits` | Server/Server/lib/qrcodegen.c:228-231 | boosting never loses fit, never lowers the level, and leaves no higher level that fits |
| `Encode.WriteSegments` | Server/Server/lib/qrcodegen.c:234-245 | the buffer holds mode, count and payload of every segment, in the widths that `StreamFormat.SegmentLayout` names |
| `StreamFormat.SegmentLayout` | Server/Server/lib/qrcodegen.c:237-242 | a segment is its four-bit mode indicator (0001, 0010, 0100, 1000, 0111), its count in the prescribed width, and its payload |
| `StreamFormat.CountWidths` | Server/Server/lib/qrcodegen.c:1013-1024 | the count takes 10, 9, 8, 8 bits (numeric, alphanumeric, byte, kanji) in versions 1 to 9, 12, 11, 16, 10 in versions 10 to 26 and 14, 13, 16, 12 in versions 27 to 40; none for ECI |
| `Encode.WriteTail` | Server/Server/lib/qrcodegen.c:248-259 | terminator, fill and alternating pad bytes |
| `Encode.TailLength` | Server/Server/lib/qrcodegen.c:248-259 | exactly the capacity in bits is written |
| `StreamFormat.TailBits` | Server/Server/lib/qrcodegen.c:248-259 | bit by bit: zeros for at most four bits and up to the next byte, then 11101100 and 00010001 in turn up to the capacity |
| `Encode.WriteData` | Server/Server/lib/qrcodegen.c:234-259 | the codewords are the data bits, and no byte past the version's buffer length changes |
| `Encode.ParseStream` | Server/Server/lib/qrcodegen.c:234-259 | a reader of mode, count and payload recovers every segment, whatever padding follows |
| `Encode.DataRoundTrip` | Server/Server/lib/qrcodegen.c:234-259 | the padded data of any list of segments reads back as that list |
| `Encode.CapacityFits` | Server/Server/lib/qrcodegen.c:330-336 | the data codewords fit the buffer of a version |
| `StreamFormat.BufferLeast` | Server/Server/lib/qrcodegen.h:139 | the buffer for a version has one byte for the size and the fewest bytes that hold the modules |
| `Symbol.DrawSymbol` | Server/Server/lib/qrcodegen.c:262-266 | from data codewords to function modules and drawn codewords, with the two buffers exchanging roles |
| `Symbol.EncodeSegmentsAdvanced` | Server/Server/lib/qrcodegen.c:207-287 | fails exactly when no version fits, else leaves the symbol of the least version, the boosted level and the best mask |
| `Symbol.CodewordsOfFinished` | Server/Server/lib/qrcodegen.c:579-633 | unmasking and scanning a finished symbol recovers all codewords, for every version, level and mask |
| `Symbol.SymbolTheorem` | Server/Server/lib/qrcodegen.c:207-287 | reading a finished symbol (unmask, scan, pack, de-interleave, parse) gives back the contents of all segments in order |
| `Symbol.EncodedTheorem` | Server/Server/lib/qrcodegen.c:207-287 | the same for the packed grid that the encoder leaves, by a reader that takes version, level and mask from the grid itself |
| `Symbol.ReadParameters` | Server/Server/lib/qrcodegen.c:207-287 | version, level and mask found in the grid are the ones the encoder chose |
| `EncodeText.MakeText` | Server/Server/lib/qrcodegen.c:140-161 | numeric, else alphanumeric, else byte mode; fails only if the payload overflows or exceeds the buffer |
| `EncodeText.ModeShortest` | Server/Server/lib/qrcodegen.c:140-161 | the mode chosen can hold the text, and any other mode that can takes more bits, in every version |
| `EncodeText.TooLong` | Server/Server/lib/qrcodegen.c:140-166 | then no version in the range fits either |
| `EncodeText.SegmentsFit` | Server/Server/lib/qrcodegen.c:132-166 | the segment fits a version exactly when length, header and payload of the text do |
| `EncodeText.EncodeText` | Server/Server/lib/qrcodegen.c:132-166 | succeeds exactly when some version in the range fits the text, picks the least and, with boosting, the highest level that fits, leaves the requested mask or the first of least penalty, and the symbol read back, given nothing but its modules, is the text, character for character |
| `QrCodeClass.GrowingBits.AppendBits` | Server/Server/source/QRGenerator/qrcodegen.cpp:822-827 | appends the field, or refuses a value out of range and changes nothing |
| `QrCodeClass.DataCodewords` | Server/Server/source/QRGenerator/qrcodegen.cpp:291-313 | the growing bit buffer packs to the same data codewords as the C version |
| `QrCodeClass.QrCode.DrawCodewords` | Server/Server/source/QRGenerator/qrcodegen.cpp:536-560 | the scan with separate marks draws the same bits in the same order and uses all of them, or refuses a wrong number of codewords |
| `QrCodeClass.QrCode.ApplyMask` | Server/Server/source/QRGenerator/qrcodegen.cpp:563-584 | xors the pattern onto unmarked modules, or refuses a mask out of range |
| `QrCodeClass.VersionsAgree` | Server/Server/source/QRGenerator/qrcodegen.cpp:536-584 | after drawing and masking, the codeword modules of the C and the C++ version are equal |

## Left out

- Basemul.Basemul: the output array is required to differ from both inputs, as in every call of the program; overlapping arguments are not modelled.
- Basemul.PolyBasemul: the same for the result polynomial.
- KPke.KeyPair: the matrix seed is assumed to give each entry 256 accepted candidates, without which the sampling loop does not end. Bytes are bit vectors in the sponge and numbers in the arithmetic, so they are copied from one array to another where the source has one buffer.
- KPkeStandard.KeyGeneration: assumes, like the methods, that each entry of the matrix finds its 256 candidates.
- KPke.Enc: the same assumption. The order of independent steps is that of the source within each value, not across values.
- Sampling.GenMatrix: dimension two only; the loops over the rows and columns of a vector are written out for two.
- Compress.PolyCompress10: the 11-bit and 5-bit packings of the larger parameter sets, which this configuration does not compile, are absent.
- Sponge.KeccakSqueeze: the output buffer is an object of its own, apart from the state.
- KeccakF.EvenRound: the loop body is split into two methods, one a round.
- Shake.OneShot: the incremental shake128 and shake256 functions differ only in the rate, which is a parameter here.
- Zigzag.DrawCodewords: requires room for all bits, which the source asserts at its end; `RoomCount.RoomTheorem` shows that every call of the encoder meets it.
- Symbol.EncodeSegmentsAdvanced: a segment holds its bits as a value; that its data may lie in the work buffer, which is overwritten only after it was read, is not captured.
- Symbol.ReadSymbol: the reader trusts the format modules and the size; correcting errors is the business of a scanner.
- QrCodeClass.VersionsAgree: the C++ version is taken to start from a grid that is light on the codeword modules and to have the marks of the C version; its drawFunctionPatterns, whose outcome those marks describe, is not modelled a second time.
- QrCodeClass.QrCode.constructor: takes modules and marks, for the same reason.
- The encapsulation of kem.c: crypto_kem_enc_derand encrypts the message its caller supplies with coins derived from other randomness, while crypto_kem_dec re-encrypts with coins derived from the message, so agreement of encapsulation and decapsulation is not what this code does. The results here are about the indcpa functions.
- Kanji and ECI segments, encodeBinary and makeSegments: easy members next to the three makers.
- Secrecy, constant time, and the probability that the noise exceeds its bound.
- Random bytes, sockets, threads, the database classes, the console and picture output, and HexToChar and CharToHex.
- The Python, TypeScript and Rust versions of the QR generator. The Python version rounds alignment steps differently from the C and C++ versions, which are followed here.
