# Verified models of LiberaCrypt's integer and codec code

A Dafny 4.11 model of the arithmetic, coding and selection code of LiberaCrypt, with its loops, limb arrays,
in-place updates, error exits and integer widths, and proofs of what that code is for. Loops are methods with
invariants, proved against specification functions; the laws of those functions are lemmas.

| module | what it models |
|---|---|
| `Rans`, `RansTables` | the byte-aligned rANS coder, its reciprocal step and the six shipped tables |
| `Encoding`, `Packing` | entropy coding of HAETAE vectors, the signature wire format |
| `Reduce`, `ZetaTable`, `Ntt`, `NttCode`, `NttRoots`, `Ring` | Montgomery and Barrett reduction modulo 64513, the 256-point transform and its shipped roots, ring multiplication |
| `Limbs`, `Bignums`, `Karatsuba`, `Squaring` | limb kernels of any length: schoolbook, one-level Karatsuba, squaring |
| `Montgomery`, `LongDivision`, `ModExp`, `ModExpSecret` | two forms of CIOS, their setup, long division, sliding-window and fixed-schedule exponentiation |
| `Field25519`, `Scalar25519`, `Window25519`, `Ladder25519`, `Bits` | radix-2^16 field, scalars modulo L, masked window multiplication and ladder |
| `NumberTheory`, `Rsa`, `ElGamal`, `Oaep` | Fermat's theorem, Euclid's loop, the two encryption round trips, OAEP |
| `Fft`, `RootTable`, `RootAccuracy`, `Evaluation`, `FftAccuracy` | the fixed-point FFT: its range, its table of roots, and how far its results are from exact values |
| `BestM`, `Hint` | selection of the largest sums, hint recovery |
| `Arith`, `BitReversal`, `ReversalTable`, `ComplexReal` | products, powers, congruences; reversed indices and their shipped table; exact complex numbers |

## How the claims fit together

- **Codec.** `Rans.StreamBijection` lifts the two single-step inversions over whole streams, with the state
  interval as the invariant; `Encoding.Alphabet.DecodeIffEncode` adds the coefficient maps, `EncodeOutcome` says
  which vectors have an encoding at all, and `Packing.PackUnpackBijection` the framing. `EncodeVector`,
  `DecodeVector`, `PackSig` and `UnpackSig` are the loops over buffers, each tied to the function those laws are about.
  The reciprocal tables enter through `RansTables.ShippedTablesConsistent`.
- **Transform.** The root table is a binary tree of factors of X^256 + 1. The forward invariant is that every
  block of the frontier agrees with the input at the roots below its node; the inverse runs the same argument
  upwards. `Ring.Multiply` is the whole composition. `NttRoots.RootIs` names the roots: 426 to the odd powers in
  bit-reversed order, from relations between table entries that are checked by computation.
- **Bignum.** The specification of every kernel is the integer its limbs spell. The exits that report a borrow,
  carry or length failure are characterised exactly, and then shown not to be taken. `Montgomery.CandidatesAgree`
  says that the fast reduction leaves the same limbs as the shifting one, and `LongDivision.Mod` that the
  estimating division is the remainder. `ModExp.ModExpVartime` composes them.
- **Curve25519.** `Reduce16` needs only limbs below 2^63, and `FoldedEntries` gives 2^42, so three carry passes
  suffice; the fourth one changes nothing. `ScalarMultiply` holds for any associative addition.
- **Public key.** Encryption and decryption are methods over the limb exponentiations, and promise congruences. Fermat's
  theorem is proved, not assumed; `Rsa.RoundTrip` and `ElGamal.RoundTrip` rest on it, on what the exponent construction
  returns, and on nothing but those congruences.
- **FFT.** Every complex z with z^256 = -1, real part above 0.9998 and negative imaginary part is exp(-i pi / 256); the
  claims hold for every such z. Its powers are enclosed by repeated square roots with 32 fractional bits, which decides
  the rounding of all 512 numbers of the shipped table. Exact butterflies build exact evaluations
  (`Evaluation.IdealStep`), and `FftAccuracy` carries the distance between stored and exact numbers through the stages.

## Where code and its comments differ

- `haetae_reduce.c:17` allows a = 2^31 q and promises a result below q; there the result is q. The promise holds
  on the documented interval if and only if a is below that end (`Reduce.MontgomeryRange`).
- `haetae_decompose.c:10` promises a quarter-range low part. The code centres the whole byte, as
  `haetae_poly.c:349` says; `Hint.DecomposeZ1` has the exact condition under which the first comment is met.
- `haetae_decompose.c:62` promises -1 <= a0 < 1. The code also returns 1, exactly for inputs that are 1 modulo 4,
  as `haetae_fft.c:148` says (`Hint.DecomposeVk`).
- The doubling setup of `Benchmark.c:129` yields the reduced 2^(64 n) if and only if the modulus is not 1
  (`Montgomery.R2Exact`).

## Model

| member | source | states |
|---|---|---|
| `Rans.StreamBijection` | src/DigitalSignature/HAETAE/haetae_rans_byte.h:65-152 | for every table that tiles the 1024 slots: decoding n symbols from a byte string succeeds with a given sequence if and only if that sequence has n symbols of the table and is encoded as exactly those bytes; so both compositions of encoder and decoder are the identity, and no two byte strings decode to the same symbols |
| `Rans.DecInvertsEnc` | src/DigitalSignature/HAETAE/haetae_rans_byte.h:86-93 | in every normalized state, popping the symbol just put restores the state and the bytes, and the decoder finds that symbol in the low bits |
| `Rans.EncInvertsDec` | src/DigitalSignature/HAETAE/haetae_rans_byte.h:137-152 | in every normalized state, putting back the symbol just popped restores state and bytes, unless input ran out, which leaves a state below 2^23 |
| `Rans.ExhaustedStaysLow` | src/DigitalSignature/HAETAE/haetae_rans_byte.h:137-152 | a pop from a state below 2^23 never raises it, so a decoder that has run out of input can never get back to the accepting state |
| `Rans.EncPutKeepsInterval` | src/DigitalSignature/HAETAE/haetae_rans_byte.h:65-93 | every put keeps the state in [2^23, 2^31) and shifts out at most two bytes |
| `Rans.ReciprocalQuotient` | src/DigitalSignature/HAETAE/haetae_rans_byte.h:229-243 | multiplying by the rounded-up reciprocal and shifting is the exact quotient x / freq for every 31-bit x and every frequency |
| `Rans.EntryRepresents` | src/DigitalSignature/HAETAE/haetae_rans_byte.h:178-249 | any table entry whose fields satisfy the reciprocal relation makes the fast step compute the division step on every state below its bound |
| `Rans.RansEncSymbolInit` | src/DigitalSignature/HAETAE/haetae_rans_byte.h:178-249 | the entry built for any start and frequency 1..1024 makes the multiply-and-shift step equal to the division step, and its fields fit their integer widths |
| `Rans.RansEncPutSymbol` | src/DigitalSignature/HAETAE/haetae_rans_byte.h:264-293 | writes backwards into the buffer exactly what the division form of the step emits, moves the write position by at most two, and keeps the state interval |
| `Rans.RansEncFlush` | src/DigitalSignature/HAETAE/haetae_rans_byte.h:96-105 | puts the little-endian state in front of the bytes written so far |
| `Rans.RansDecInit` | src/DigitalSignature/HAETAE/haetae_rans_byte.h:109-126 | fails exactly when fewer than four bytes remain or the first state is outside [2^23, 2^31) |
| `Rans.RansDecAdvance` | src/DigitalSignature/HAETAE/haetae_rans_byte.h:137-153 | reads from the buffer exactly as the decoder step does on the remaining input, never past its end |
| `Rans.RansDecVerify` | src/DigitalSignature/HAETAE/haetae_rans_byte.h:334-341 | accepts exactly the initial encoder state 2^23 |
| `Rans.SymbolOfSlot` | src/DigitalSignature/HAETAE/haetae_encoding.c:20-41 | in a table that tiles the slots, every slot finds a symbol whose range holds it |
| `Rans.SlotDeterminesSymbol` | src/DigitalSignature/HAETAE/haetae_encoding.c:20-41 | a slot inside the range of symbol s finds s and no other, so ranges do not overlap |
| `RansTables.ShippedTablesConsistent` | src/DigitalSignature/HAETAE/haetae_encoding.c:20-59 | all six shipped pairs of encoder and decoder tables tile the 1024 slots, and each reciprocal entry represents its (start, freq) entry |
| `Encoding.Alphabet.DecodeIffEncode` | src/DigitalSignature/HAETAE/haetae_encoding.c:83-285 | for vectors in the promised domain and strings no longer than n: the decoder accepts n coefficients from a string if and only if the vector has n coefficients and encodes to exactly that string |
| `Encoding.Alphabet.SymbolsOfVector` | src/DigitalSignature/HAETAE/haetae_encoding.c:105-115 | a vector in the promised domain maps to given symbols, with its excluded middle or range, if and only if they are table symbols that map back to it |
| `Encoding.Alphabet.HintSymbol` | src/DigitalSignature/HAETAE/haetae_encoding.c:100-115 | a hint has a symbol exactly when its centred value c modulo (2q - 2) / alpha is at most (m - 1) / 2 in size, m being the table length, and the symbol is then congruent to c modulo m |
| `Encoding.Alphabet.HighBitsSymbol` | src/DigitalSignature/HAETAE/haetae_encoding.c:194-236 | high bits have a symbol exactly from -(m - 1) / 2 to (m - 1) / 2, in increasing order |
| `Encoding.Alphabet.EncodeOutcome` | src/DigitalSignature/HAETAE/haetae_encoding.c:83-130 | encoding fails exactly for a coefficient farther from zero than that, or a stream longer than the vector |
| `Encoding.EncodeVector` | src/DigitalSignature/HAETAE/haetae_encoding.c:83-130 | the backward loop with its "four bytes remain" check never writes outside its buffer; it returns size 0 exactly when a coefficient is too far from zero or the stream is longer than the vector, and otherwise writes exactly the stream |
| `Encoding.DecodeVector` | src/DigitalSignature/HAETAE/haetae_encoding.c:140-183 | returns 0 exactly when the whole string is the stream of one vector, and then writes that vector |
| `Packing.PackUnpackBijection` | src/DigitalSignature/HAETAE/haetae_packing.c:184-326 | unpacking a string gives the parts if and only if the parts are canonical and pack to that string: packing is a bijection onto accepted signatures, including length bytes and zero padding |
| `Packing.PackSig` | src/DigitalSignature/HAETAE/haetae_packing.c:184-249 | fails exactly when a vector has no encoding or a size is outside its byte-offset window or the signature; otherwise the buffer holds the packed signature |
| `Packing.UnpackSig` | src/DigitalSignature/HAETAE/haetae_packing.c:265-326 | fails exactly on strings that are not a packed signature; otherwise the four outputs are its parts |
| `Packing.PackChallenge` | src/DigitalSignature/HAETAE/haetae_packing.c:201-207 | OR-ing bit i into bit i % 8 of byte i / 8 of a zeroed buffer gives the packed bytes and leaves the rest zero |
| `Packing.UnpackChallenge` | src/DigitalSignature/HAETAE/haetae_packing.c:276-279 | reads back the bits of the first 32 bytes |
| `Packing.BitsRoundTrip` | src/DigitalSignature/HAETAE/haetae_packing.c:201-279 | packing of bits and unpacking of bytes are inverse, both ways |
| `Packing.PolyDecomposedPack` | src/DigitalSignature/HAETAE/haetae_poly.c:353-359 | stores each coefficient modulo 256 in its byte and changes no other byte |
| `Packing.PolyDecomposedUnpack` | src/DigitalSignature/HAETAE/haetae_poly.c:361-369 | reads each byte as its centred value in [-128, 127] and changes no other coefficient |
| `Packing.LowBytesRoundTrip` | src/DigitalSignature/HAETAE/haetae_poly.c:348-369 | byte storage and centred reading are inverse on [-128, 127], both ways |
| `Packing.PackLowBits` | src/DigitalSignature/HAETAE/haetae_packing.c:209-213 | the l polynomials are stored one after another behind the challenge, the rest stays zero |
| `Packing.UnpackLowBits` | src/DigitalSignature/HAETAE/haetae_packing.c:283-285 | reads all l polynomials back in order |
| `Packing.CheckPadding` | src/DigitalSignature/HAETAE/haetae_packing.c:317-323 | accepts exactly all-zero padding |
| `Packing.BitOfShift` | src/DigitalSignature/HAETAE/haetae_packing.c:276-279 | reading a bit is a right shift and a mask |
| `Packing.LengthBytes` | src/DigitalSignature/HAETAE/haetae_packing.c:226-236 | the two bytes after the low bits are the encoded lengths less the base lengths of the parameter set |
| `Packing.ShippedLayout` | src/DigitalSignature/HAETAE/haetae.c:19-29 | for each shipped set the sizes of the vectors and of the signature, and the base lengths 132 and 7, 376 and 127, 501 and 358 |
| `Packing.ShippedParametersValid` | src/DigitalSignature/HAETAE/haetae.c:19-29 | the three shipped parameter sets and their tables meet what packing relies on: the hint range is (2q - 2) / alpha, every table has a symbol for zero in its middle, and every length with its offset byte fits the buffers |
| `Reduce.MontgomeryExact` | src/DigitalSignature/HAETAE/haetae_reduce.c:24-38 | the numerator is exactly divisible by 2^32 with a signed 32-bit multiplier, for every integer a |
| `Reduce.MontgomeryCongruent` | src/DigitalSignature/HAETAE/haetae_reduce.c:24-38 | the result times 2^32 is congruent to a modulo q |
| `Reduce.MontgomeryRange` | src/DigitalSignature/HAETAE/haetae_reduce.c:14-38 | on the documented interval -2^31 q <= a <= 2^31 q the result is strictly within (-q, q) if and only if a is not the upper end |
| `Reduce.MontgomeryAtUpperEnd` | src/DigitalSignature/HAETAE/haetae_reduce.c:14-38 | the counterexample to the documented closed interval: at a = 2^31 q the result is q |
| `Reduce.Freeze` | src/DigitalSignature/HAETAE/haetae_reduce.c:57-67 | floor-division Barrett reduction returns a mod q for every 32-bit a |
| `Reduce.Freeze2Q` | src/DigitalSignature/HAETAE/haetae_reduce.c:96-108 | returns a mod 2q for every 32-bit a |
| `Reduce.Reduce32_2Q` | src/DigitalSignature/HAETAE/haetae_reduce.c:74-88 | returns the representative of a modulo 2q in [-q, q) for every 32-bit a |
| `ZetaTable.ShippedFact` | src/DigitalSignature/HAETAE/haetae_ntt.c:6-35 | every entry of the shipped root table satisfies the squaring relation, the mirror relation and the product relation with the entries for its top bit and the rest; entry 128 is 426 in Montgomery form |
| `NttRoots.ZetaPower` | src/DigitalSignature/HAETAE/haetae_ntt.c:6-35 | entry k of the shipped table is 2^32 times 426 to the power of k with its eight bits reversed, modulo q |
| `NttRoots.HalfTurn` | src/DigitalSignature/HAETAE/haetae_ntt.c:6-35 | 426 to the power 256 is -1 modulo q |
| `NttRoots.RootIs` | src/DigitalSignature/HAETAE/haetae_ntt.c:46-61 | the root of output i of the shipped transform is 426^(2 brv8(i) + 1) modulo q |
| `NttRoots.ShippedForward` | src/DigitalSignature/HAETAE/haetae_ntt.c:46-61 | with the shipped table, output i is the value of the input polynomial at 426^(2 brv8(i) + 1) modulo q, and no entry exceeds 9 (q - 1) |
| `NttRoots.ShippedInverse` | src/DigitalSignature/HAETAE/haetae_ntt.c:74-95 | with the shipped table, the output polynomial takes the value 2^32 times input entry i at 426^(2 brv8(i) + 1), every coefficient strictly within (-q, q) |
| `NttCode.HaetaeValid` | src/DigitalSignature/HAETAE/haetae_ntt.c:6-35 | the shipped table is a valid transform: its tree of factors X^len - w splits down to linear factors |
| `Ntt.Transform.SplitFactor` | src/DigitalSignature/HAETAE/haetae_ntt.c:46-95 | the two children of node k are the square roots of its root, of opposite sign, and the mirrored inverse-table entry is the inverse of the forward one |
| `Ntt.Transform.RootPower` | src/DigitalSignature/HAETAE/haetae_ntt.c:46-61 | every one of the 256 leaf roots below a node has the node's value as its size-th power; at the top, every root is a root of X^256 + 1 |
| `Ntt.Transform.ForwardNode` | src/DigitalSignature/HAETAE/haetae_ntt.c:53-58 | a forward butterfly block turns "agrees with the input at all roots below the node" into the same for both children |
| `Ntt.Transform.InverseNode` | src/DigitalSignature/HAETAE/haetae_ntt.c:82-88 | an inverse butterfly block merges agreement at the children into agreement at the node with doubled scale |
| `Ntt.Transform.ZeroFromRoots` | src/DigitalSignature/HAETAE/haetae_ntt.c:46-95 | a block of coefficients whose polynomial vanishes modulo q at all roots below its node is zero modulo q: the values determine the coefficients |
| `NttCode.ForwardBlock` | src/DigitalSignature/HAETAE/haetae_ntt.c:54-58 | the in-place inner loop is exactly the simultaneous butterfly of its block and leaves the rest alone |
| `NttCode.ForwardLayer` | src/DigitalSignature/HAETAE/haetae_ntt.c:51-60 | one level moves the whole frontier of the tree down, stepping the table index, and keeps agreement with the input at the roots, and the bound of its level, for every block |
| `NttCode.ForwardNtt` | src/DigitalSignature/HAETAE/haetae_ntt.c:46-61 | entry i is the value of the input polynomial at the i-th root modulo q, and no entry exceeds 9 (q - 1), so no 32-bit overflow |
| `NttCode.InverseBlock` | src/DigitalSignature/HAETAE/haetae_ntt.c:83-88 | the in-place inner loop is exactly the simultaneous inverse butterfly of its block |
| `NttCode.InverseLayer` | src/DigitalSignature/HAETAE/haetae_ntt.c:80-90 | one level merges all nodes of a level, the table index walking backwards |
| `NttCode.InverseNtt` | src/DigitalSignature/HAETAE/haetae_ntt.c:74-95 | the output polynomial takes the value 2^32 times input entry i at the i-th root, and every coefficient is strictly within (-q, q) |
| `NttCode.ScaleAll` | src/DigitalSignature/HAETAE/haetae_ntt.c:92-94 | every entry is multiplied by the last factor in Montgomery form |
| `NttCode.ReducedProduct` | src/DigitalSignature/HAETAE/haetae_ntt.c:55-93 | products of a table entry with any value up to 256 (q - 1) reduce strictly within (-q, q) |
| `Ring.PointwiseMontgomery` | src/DigitalSignature/HAETAE/haetae_poly.c:56-61 | each entry is the product divided by 2^32 modulo q, strictly within (-q, q), for inputs as large as the forward transform leaves them |
| `Ring.EvalProduct` | src/DigitalSignature/HAETAE/haetae_ntt.c:46-95 | the negacyclic product evaluates to the product of the values at every root of X^256 + 1 |
| `Ring.SameValues` | src/DigitalSignature/HAETAE/haetae_ntt.c:46-95 | polynomials that agree at all 256 roots agree coefficient by coefficient modulo q |
| `Ring.ProductFromValues` | src/DigitalSignature/HAETAE/haetae_ntt.c:46-95 | whatever takes the values of the pointwise products is the negacyclic product coefficient by coefficient |
| `Ring.Multiply` | src/DigitalSignature/HAETAE/haetae_ntt.c:46-95 | inverse transform of the pointwise product of the two transforms is congruent, coefficient by coefficient, to the product modulo X^256 + 1 and q, for all inputs below q in absolute value |
| `Limbs.MulAddRow` | benchmarks/Bignum/Stage3Benchmark.c:77-90 | one row adds m b at its limb offset with the exact carry out, touching only its own limbs, for any limb count |
| `Limbs.ValueInjective` | benchmarks/Bignum/Stage3Benchmark.c:63-67 | equal values of equally many limbs are equal limbs |
| `Karatsuba.SchoolbookWords` | benchmarks/Bignum/Stage3Benchmark.c:69-92 | the region holds the product, for any two lengths, and nothing else is written |
| `Karatsuba.AddHalves` | benchmarks/Bignum/Stage3Benchmark.c:94-112 | succeeds exactly when the output has a limb more than the longer half, and then holds the sum |
| `Karatsuba.SubtractWords` | benchmarks/Bignum/Stage3Benchmark.c:114-130 | succeeds exactly when the subtrahend fits and is not larger; the region holds the difference, or the difference modulo the region after a borrow |
| `Karatsuba.AddShifted` | benchmarks/Bignum/Stage3Benchmark.c:132-153 | succeeds exactly when the shifted value fits in length and in total, and then the region grew by it; the carry loop never leaves the region |
| `Karatsuba.WordsLength` | benchmarks/Bignum/Stage3Benchmark.c:63-67 | dropping leading zero limbs keeps the value, and the length is least |
| `Karatsuba.SplitProduct` | benchmarks/Bignum/Stage3Benchmark.c:191-222 | the three products recombine to the full product |
| `Karatsuba.CrossTerm` | benchmarks/Bignum/Stage3Benchmark.c:206-210 | both subtractions stay non-negative and the cross term fits one limb more than the two halves together |
| `Karatsuba.EvaluateParts` | benchmarks/Bignum/Stage3Benchmark.c:192-204 | never fails: the workspace holds low product, high product and product of the sums, in disjoint regions |
| `Karatsuba.SubtractOuter` | benchmarks/Bignum/Stage3Benchmark.c:206-210 | never borrows: the cross term is left in place |
| `Karatsuba.Assemble` | benchmarks/Bignum/Stage3Benchmark.c:215-225 | never fails on carry or length: the output is the product |
| `Karatsuba.RequiredBound` | benchmarks/Bignum/Stage3Benchmark.c:174-183 | the workspace demanded is exactly 4n + 4 words for even n and 4n + 6 for odd n, so 4n + 8 suffice |
| `Bignums.KaratsubaOneLevel` | benchmarks/Bignum/Stage3Benchmark.c:159-227 | succeeds if and only if output and inputs differ, lengths agree and are at least 4, and the workspace is large enough, and then the normalized output is the product: no borrow, carry or length exit is ever taken |
| `Bignums.Bignum.Reserve` | src/Util/Bignum/bignum.c:29-46 | grows the limb array when needed and keeps the contents |
| `Bignums.Bignum.Normalize` | src/Util/Bignum/bignum.c:48-51 | strips leading zeros and keeps the value |
| `Squaring.SquareAddProduct` | benchmarks/Bignum/Stage2Benchmark.c:167-182 | reports success exactly when the product fits at its offset, and then adds it; an offset outside leaves every limb as it was |
| `Squaring.CrossStep` | benchmarks/Bignum/Stage2Benchmark.c:203-213 | each doubled cross product moves the accumulated sum by exactly its amount |
| `Squaring.RowEnd` | benchmarks/Bignum/Stage2Benchmark.c:202-214 | after row i the accumulated value is the square minus the square of the limbs above |
| `Squaring.RowBound` | benchmarks/Bignum/Stage2Benchmark.c:202-214 | every partial sum is at most the full square, which is why the helper cannot overflow |
| `Squaring.SquareRow` | benchmarks/Bignum/Stage2Benchmark.c:202-214 | a row never reports overflow |
| `Squaring.Square` | benchmarks/Bignum/Stage2Benchmark.c:186-225 | for any limb count the routine succeeds and the output is the square of the input, also when they are the same object |
| `Squaring.MultiplyRow` | benchmarks/Bignum/Stage2Benchmark.c:141-156 | a row adds m b at its offset; its unbounded carry loop stays inside the buffer |
| `Squaring.Multiply` | benchmarks/Bignum/Stage2Benchmark.c:123-165 | for any two limb counts, in any aliasing, the output is the product |
| `Montgomery.CiosShift` | benchmarks/Bignum/Benchmark.c:170-213 | succeeds exactly for n > 0; the n + 2 limbs then hold the value of the one-limb-at-a-time Montgomery recurrence, with no carry lost |
| `Montgomery.CiosBound` | benchmarks/Bignum/Benchmark.c:180-211 | the recurrence stays below a + N, hence below 2N for a below N |
| `Montgomery.CiosCongruent` | benchmarks/Bignum/Benchmark.c:180-211 | the result times 2^(32 n) is congruent to a b modulo N, for every n |
| `Montgomery.RoundExact` | benchmarks/Bignum/Benchmark.c:192-208 | with n0inv = -1/N modulo 2^32 the low limb vanishes in each round, so the shift loses nothing |
| `Montgomery.CiosCandidate` | src/Util/Bignum/bignum_montgomery.h:71-119 | the shift-free form, with shorter operands padded by zeros, computes the same recurrence; it fails exactly on n = 0 or too long operands |
| `Montgomery.ReduceRow` | src/Util/Bignum/bignum_montgomery.h:98-116 | adding m N while writing one slot lower divides the sum by 2^32 |
| `Montgomery.CandidatesAgree` | src/Util/Bignum/bignum_montgomery.h:64-119 | the shifting and the shift-free form leave the same limbs: the fast form refines the reference |
| `Montgomery.CandidateIsProduct` | src/Util/Bignum/bignum_montgomery.h:64-119 | the candidate is a b / 2^(32 n) modulo N and below 2N |
| `Montgomery.N0inv` | src/Util/Bignum/bignum_montgomery.h:19-24 | five Newton steps give -1/n0 modulo 2^32 if and only if n0 is odd |
| `Montgomery.LowLimbInverse` | src/Util/Bignum/bignum_montgomery.h:19-24 | an inverse for the low limb is one for the whole modulus, and conversely |
| `Montgomery.R2Doubling` | benchmarks/Bignum/Benchmark.c:129-166 | the doubling loop returns 2^(64 n) mod N for N other than 1, and 1 for N = 1 |
| `Montgomery.R2Exact` | benchmarks/Bignum/Benchmark.c:129-166 | so the setup constant is the reduced one if and only if the modulus is not 1 |
| `LongDivision.EstimateDigit` | src/Util/Bignum/bignum.c:420-435 | the estimate with its correction loop is the quotient of the three top by the two top limbs, capped at 2^32 - 1, with no 64-bit overflow |
| `LongDivision.EstimateIsClose` | src/Util/Bignum/bignum.c:420-435 | that estimate is the true digit or one more |
| `LongDivision.WindowEstimate` | src/Util/Bignum/bignum.c:417-435 | the same for the limbs of a window of the dividend |
| `LongDivision.MultiplySubtract` | src/Util/Bignum/bignum.c:437-449 | the window loses qhat times the divisor; the underflow flag is set exactly when the result went below zero and wrapped |
| `LongDivision.AddBack` | src/Util/Bignum/bignum.c:451-458 | adds the divisor back and drops at most one carry |
| `LongDivision.ReduceWindow` | src/Util/Bignum/bignum.c:417-459 | one round replaces the window by its remainder |
| `LongDivision.LongDivide` | src/Util/Bignum/bignum.c:413-460 | after all rounds the low limbs are the dividend modulo the divisor |
| `LongDivision.Clz32` | src/Util/Bignum/bignum.c:353-360 | the shift that puts the top bit in place |
| `LongDivision.ShiftLeft` | src/Util/Bignum/bignum.c:397-410 | multiplies by the power of two, the carry out exact |
| `LongDivision.ShiftRight` | src/Util/Bignum/bignum.c:465-474 | divides by the power of two, from the top limb down |
| `LongDivision.ScaledDivisor` | src/Util/Bignum/bignum.c:394-403 | the shifted divisor loses nothing and has its top bit set |
| `LongDivision.ScaledDividend` | src/Util/Bignum/bignum.c:404-411 | the shifted dividend loses nothing and its top window is below the divisor |
| `LongDivision.ScaledRemainder` | src/Util/Bignum/bignum.c:465-474 | scaling both operands scales the remainder, and shifting back recovers it |
| `LongDivision.ReduceLong` | src/Util/Bignum/bignum.c:380-475 | normalization, division and denormalization together give a mod v |
| `LongDivision.ModU32` | src/Util/Bignum/bignum.c:516-522 | the one-limb reduction from the top limb down is a mod v |
| `LongDivision.Compare` | src/Util/Bignum/bignum.c:169-180 | comparing lengths and then limbs orders the values of numbers without leading zeros |
| `LongDivision.BitLengthLeast` | src/Util/Bignum/bignum.c:132-140 | the bit length is the fewest bits that hold the number |
| `LongDivision.CopyBignum` | src/Util/Bignum/bignum.c:62-72 | the copy has the same limbs |
| `LongDivision.SetWord` | src/Util/Bignum/bignum.c:74-91 | the normalized number of the given value |
| `LongDivision.Mod` | src/Util/Bignum/bignum.c:362-487 | for all sizes and any aliasing of the output: fails if and only if the modulus is zero, otherwise the output is a mod the modulus |
| `LongDivision.ModBitwise` | benchmarks/Bignum/Benchmark.c:74-111 | the shift, compare and subtract form gives the same remainder and fails exactly on modulus zero |
| `ModExp.ModExpVartime` | src/Util/Bignum/bignum_vartime.c:136-291 | every branch (modulus 1, exponents 0, 1 and 2, even modulus, base 0 or 1, sliding window) returns base^e mod the modulus, and it fails exactly on modulus zero |
| `ModExp.Exponentiate` | src/Util/Bignum/bignum_vartime.c:189-279 | Montgomery entry, table, window loop and exit give base^e mod N for every odd modulus above 1 |
| `ModExp.Slide` | src/Util/Bignum/bignum_vartime.c:240-276 | the sliding-window loop ends at the Montgomery form of base^e for any window width |
| `ModExp.FindWindow` | src/Util/Bignum/bignum_vartime.c:254-260 | trims the window to an odd value whose bits are those of the exponent |
| `ModExp.BuildTable` | src/Util/Bignum/bignum_vartime.c:228-238 | entry k is the Montgomery form of base^(2k + 1) |
| `ModExp.Init` | src/Util/Bignum/bignum_vartime.c:33-60 | for every odd modulus above 1 the context has the inverse limb and the reduced 2^(64 n) |
| `ModExp.ComputeR2` | src/Util/Bignum/bignum_montgomery.h:28-61 | 2^(64 n) mod the modulus, in exactly n limbs |
| `ModExp.MontMul` | src/Util/Bignum/bignum_vartime.c:76-100 | a reduced result with result 2^(32 n) congruent to a b |
| `ModExp.AtLeastModulus` | src/Util/Bignum/bignum_vartime.c:62-74 | compares the n + 1 limbs of the candidate with the modulus |
| `ModExp.ProductStands` | src/Util/Bignum/bignum_vartime.c:76-100 | Montgomery multiplication multiplies the residues that two operands stand for |
| `ModExp.Enters` | src/Util/Bignum/bignum_vartime.c:224-225 | multiplying by 2^(64 n) enters Montgomery form |
| `ModExp.Leaves` | src/Util/Bignum/bignum_vartime.c:278-278 | multiplying by one leaves it with the fully reduced residue |
| `ModExp.ExponentiateEven` | src/Util/Bignum/bignum.c:699-719 | right-to-left square and multiply gives base^e mod any non-zero modulus |
| `ModExp.MulMod` | src/Util/Bignum/bignum_mod_mul.c:14-30 | product modulo the modulus |
| `ModExpSecret.ModExpCt` | src/Util/Bignum/bignum_secure.c:292-501 | succeeds exactly when the modulus is odd, the base is below it and the exponent storage is as long as the modulus, and then returns base^e mod the modulus for the number e in that storage |
| `ModExpSecret.ScanBits` | src/Util/Bignum/bignum_secure.c:349-367 | scanning all 32 n bits, computing square and product and selecting one, ends at the Montgomery form of base^e |
| `ModExpSecret.MaskedMul` | src/Util/Bignum/bignum_secure.c:232-267 | always subtracting and selecting by the final borrow gives the reduced Montgomery product |
| `ModExpSecret.LimbBit` | src/Util/Bignum/bignum_secure.c:353-355 | the bit shifted out of a limb is that bit of the number |
| `ModExp.Trim` | src/Util/Bignum/bignum_vartime.c:118-134 | drops leading zeros and keeps the value |
| `ModExp.ReduceWords` | src/Util/Bignum/bignum.c:362-487 | the remainder on limbs, without leading zeros |
| `Field25519.FeMul` | src/DigitalSignature/Ed25519/ed25519.c:234-262 | the canonical limbs of a b mod 2^255 - 19, for all 16-limb operands |
| `Field25519.Reduce16` | src/DigitalSignature/Ed25519/ed25519.c:162-183 | for limbs below 2^63 the four passes and one conditional subtraction give the canonical representative; after the third pass every limb is already in range |
| `Field25519.CarryPass` | src/DigitalSignature/Ed25519/ed25519.c:167-178 | one pass maps the value v to v mod 2^255 + 19 (v / 2^255), with all 64-bit sums exact |
| `Field25519.TwoFolds` | src/DigitalSignature/Ed25519/ed25519.c:162-178 | two such folds bring any accumulated value below 2^255 |
| `Field25519.ConditionalSubtractP` | src/DigitalSignature/Ed25519/ed25519.c:142-160 | subtracts p exactly when the value is at least p |
| `Field25519.SubtractLimbs` | src/DigitalSignature/Ed25519/ed25519.c:148-153 | the borrow chain: the difference modulo 2^256, the borrow set exactly when a < b |
| `Field25519.LimbProducts` | src/DigitalSignature/Ed25519/ed25519.c:242-250 | the carry-free product of limbs has value a b and entries at most 16 (2^16 - 1)^2 |
| `Field25519.FoldHigh` | src/DigitalSignature/Ed25519/ed25519.c:251-255 | folding the high half with factor 38 keeps the value modulo p |
| `Field25519.FoldedEntries` | src/DigitalSignature/Ed25519/ed25519.c:251-258 | every folded limb is below 2^42 |
| `Field25519.FeAdd` | src/DigitalSignature/Ed25519/ed25519.c:185-196 | the canonical limbs of a + b mod p |
| `Field25519.FeSub` | src/DigitalSignature/Ed25519/ed25519.c:198-224 | the canonical limbs of a - b mod p, dropping exactly the carry that the borrow created |
| `Field25519.FeMulSmall` | src/KeyAgreement/x25519.c:183-194 | the canonical limbs of m a mod p for every 32-bit m |
| `Field25519.FePow` | src/DigitalSignature/Ed25519/ed25519.c:339-364 | input^e mod p for the number e read from the exponent bits |
| `Field25519.InverseExponentIs` | src/DigitalSignature/Ed25519/ed25519.c:116-121 | the exponent bytes spell p - 2 |
| `Field25519.FeInvert` | src/DigitalSignature/Ed25519/ed25519.c:366-370 | input^(p - 2) mod p |
| `Field25519.FeToBytes` | src/DigitalSignature/Ed25519/ed25519.c:269-280 | the 32 little-endian bytes of the fully reduced value |
| `Field25519.FeFromBytes` | src/KeyAgreement/x25519.c:209-221 | the canonical limbs of the low 255 bits taken modulo p |
| `Field25519.FeFromCanonicalBytes` | src/DigitalSignature/Ed25519/ed25519.c:282-304 | accepts exactly when the value modulo 2^255 is below p, and then returns that value, otherwise zero |
| `Field25519.DecodeEncoded` | src/DigitalSignature/Ed25519/ed25519.c:269-304 | decoding the encoding of a canonical element gives back its limbs |
| `Scalar25519.LLimbsValue` | src/DigitalSignature/Ed25519/ed25519.c:101-107 | the limbs spell L = 2^252 + 27742317777372353535851937790883648493, and 2L fits eight limbs |
| `Scalar25519.ConditionalSubtractL` | src/DigitalSignature/Ed25519/ed25519.c:715-733 | subtracts L exactly when the value is at least L |
| `Scalar25519.ShiftIn` | src/DigitalSignature/Ed25519/ed25519.c:745-750 | doubles the remainder and adds the bit, the carry out exact |
| `Scalar25519.ScalarReduce` | src/DigitalSignature/Ed25519/ed25519.c:735-755 | for byte strings of any length the output is the little-endian value modulo L |
| `Scalar25519.AddInto` | src/DigitalSignature/Ed25519/ed25519.c:800-812 | both addition loops together add c with no lost carry |
| `Scalar25519.ScalarMulAdd` | src/DigitalSignature/Ed25519/ed25519.c:773-825 | (a b + c) mod L for all 32-byte inputs |
| `Scalar25519.WordBytesValue` | src/DigitalSignature/Ed25519/ed25519.c:703-713 | limbs to bytes keeps the value |
| `Scalar25519.ByteWordsValue` | src/DigitalSignature/Ed25519/ed25519.c:691-701 | bytes to limbs keeps the value |
| `Bits.BitsAreRemainder` | src/DigitalSignature/Ed25519/ed25519.c:339-364 | the bits below position n are the value modulo 2^n |
| `Bits.BytesAreBits` | src/DigitalSignature/Ed25519/ed25519.c:741-750 | the bits read by byte and shift, weighted by powers of two, are the little-endian value |
| `Window25519.EqualMaskIs` | src/DigitalSignature/Ed25519/ed25519.c:483-487 | all ones exactly when the 32-bit words are equal, otherwise zero |
| `Window25519.SelectEntry` | src/DigitalSignature/Ed25519/ed25519.c:501-514 | the masked copy keeps or replaces all four coordinates |
| `Window25519.PointSelect` | src/DigitalSignature/Ed25519/ed25519.c:489-516 | the full masked scan equals direct indexing |
| `Window25519.Curve.MultipleAdd` | src/DigitalSignature/Ed25519/ed25519.c:542-565 | m-fold plus n-fold is (m + n)-fold addition under any associative law |
| `Window25519.Curve.AddRepresents` | src/DigitalSignature/Ed25519/ed25519.c:534-536 | adding representatives of multiples represents the sum |
| `Window25519.Curve.DoubleRepresents` | src/DigitalSignature/Ed25519/ed25519.c:530-533 | doubling a representative represents twice the multiple |
| `Window25519.ProcessWindow` | src/DigitalSignature/Ed25519/ed25519.c:518-540 | takes n-fold to (16 n + index)-fold |
| `Window25519.BuildTable` | src/DigitalSignature/Ed25519/ed25519.c:549-553 | entry i represents i-fold addition |
| `Window25519.ScalarMultiply` | src/DigitalSignature/Ed25519/ed25519.c:542-565 | for every scalar the result is the same point as scalar-many additions of the input to the identity |
| `Ladder25519.CSwap` | src/KeyAgreement/x25519.c:196-207 | exchanges the two elements exactly when the bit is set |
| `Ladder25519.LadderStep` | src/KeyAgreement/x25519.c:295-321 | keeps the pair at multiples n and n + 1, in the order the pending swap tells, while n becomes 2n + bit |
| `Ladder25519.ClampedValue` | src/KeyAgreement/x25519.c:284-287 | the clamped number is 2^254 + s mod 2^254 - s mod 8: bits 3 to 253 are kept, bits 0 to 2 and 255 cleared, bit 254 set |
| `Ladder25519.Ladder` | src/KeyAgreement/x25519.c:284-324 | after 255 steps and the last swap the first coordinate stands for (2^254 + s mod 2^254 - s mod 8) times the base, for every 32-byte scalar s |
| `NumberTheory.Fermat` | src/AsymmetricCipher/RSA/rsa.c:120-132 | a^p is congruent to a modulo every prime p |
| `NumberTheory.FermatInverse` | src/AsymmetricCipher/ElGamal/elgamal.c:156-164 | a^(p - 1) is congruent to 1 when p does not divide a |
| `Rsa.InverseU32` | src/AsymmetricCipher/RSA/rsa.c:31-43 | the Euclid loop ends and returns the inverse in (0, m), or 0 exactly when the gcd is not 1 |
| `Rsa.EuclidStep` | src/AsymmetricCipher/RSA/rsa.c:34-39 | one round keeps the Bezout congruences and abs(t) r' + abs(t') r = m, hence every product within the modulus (no 64-bit overflow), while the remainder shrinks |
| `Rsa.GcdIsGreatest` | src/AsymmetricCipher/RSA/rsa.c:31-43 | the remainder recursion ends at the greatest common divisor |
| `Rsa.ExponentIsPrime` | src/AsymmetricCipher/RSA/rsa.c:45-62 | the public exponent 65537 is prime, so it is invertible modulo every phi it does not divide |
| `Rsa.MakePrivateExponent` | src/AsymmetricCipher/RSA/rsa.c:45-62 | succeeds exactly when 65537 does not divide phi, and then e d = 1 + k phi as integers with d below phi |
| `Rsa.Encrypt` | src/AsymmetricCipher/RSA/rsa.c:120-125 | refuses exactly messages not below the modulus; otherwise the ciphertext is the number below the modulus congruent to message^e, through the variable-time exponentiation |
| `Rsa.Decrypt` | src/AsymmetricCipher/RSA/rsa.c:127-132 | refuses exactly ciphertexts not below the modulus, reports an arithmetic error exactly for an even modulus or a short exponent storage, and otherwise returns the number below the modulus congruent to c^d, through the fixed-schedule exponentiation |
| `Rsa.RoundTrip` | src/AsymmetricCipher/RSA/rsa.c:120-132 | for distinct primes p, q and any such d: if c is congruent to message^65537 and the recovered number below p q to c^d, it is the message, for every message below p q, also one that shares a factor with the modulus |
| `ElGamal.SecretCancels` | src/AsymmetricCipher/ElGamal/elgamal.c:156-164 | h^y times (g^y)^(p - 1 - x) is congruent to 1 modulo p |
| `ElGamal.Encrypt` | src/AsymmetricCipher/ElGamal/elgamal.c:115-143 | refuses exactly messages not below p; otherwise c1 and c2 are the numbers below p congruent to g^y and m h^y, through the exponentiation and multiplication on limbs |
| `ElGamal.Decrypt` | src/AsymmetricCipher/ElGamal/elgamal.c:145-170 | refuses exactly c1 = 0 or components not below p; otherwise, for odd p and x below it, returns the number below p congruent to c2 c1^(p - 1 - x) |
| `ElGamal.InverseExponent` | src/AsymmetricCipher/ElGamal/elgamal.c:155-161 | p - 1 - x on fixed widths, failing exactly when x exceeds p - 1 |
| `ElGamal.RoundTrip` | src/AsymmetricCipher/ElGamal/elgamal.c:115-170 | for every prime p, every g below it, h congruent to g^x, every message below p and every y: numbers with the congruences of encryption and decryption give back the message, and c1 is never 0 |
| `Oaep.RoundTrip` | src/AsymmetricCipher/RSA/rsa_pkcs1.c:342-498 | decoding the encoding of any message that fits returns the message and its exact length, for any hash, label, seed and modulus width |
| `Oaep.AcceptedIff` | src/AsymmetricCipher/RSA/rsa_pkcs1.c:451-498 | a block decodes to a message if and only if it is the encoding of that message under some seed |
| `Oaep.AcceptedIsEncoding` | src/AsymmetricCipher/RSA/rsa_pkcs1.c:451-498 | from any accepted block the seed can be read off that re-encodes to it byte for byte |
| `Oaep.ParsedIff` | src/AsymmetricCipher/RSA/rsa_pkcs1.c:470-497 | the parsed data block is exactly label hash, zeros, a one and the message |
| `Oaep.CounterBytes` | src/AsymmetricCipher/RSA/rsa_pkcs1.c:162-169 | the four bytes read most significant first are the block number |
| `Oaep.LeastBlocks` | src/AsymmetricCipher/RSA/rsa_pkcs1.c:154-158 | the digests counted are the fewest that cover the mask |
| `Oaep.Mgf1Xor` | src/AsymmetricCipher/RSA/rsa_pkcs1.c:139-187 | fails exactly above 2^32 blocks; otherwise XORs the mask into its range and nothing else |
| `Oaep.Encode` | src/AsymmetricCipher/RSA/rsa_pkcs1.c:300-370 | which of the three outcomes occurs, and the encoded block on success |
| `Oaep.Decode` | src/AsymmetricCipher/RSA/rsa_pkcs1.c:451-498 | which of the four outcomes occurs, and the recovered message on success |
| `Oaep.ScanDelimiter` | src/AsymmetricCipher/RSA/rsa_pkcs1.c:473-486 | the branch-free scan finds the first non-zero byte, and rejects exactly when it is missing or not 1 |
| `FftAccuracy.ShippedTransform` | src/DigitalSignature/HAETAE/haetae_fft.c:261-337 | with the shipped tables and any coefficients in [-2, 2]: component by component, entry j of the result is within 2212 units of 2^16 times the value of the input polynomial at z^(2j + 1), where z = exp(-i pi / 256), the root of z^256 = -1 next to 1 below the axis; and all components fit the declared bound |
| `FftAccuracy.TransformEvaluates` | src/DigitalSignature/HAETAE/haetae_fft.c:299-337 | the same for any run of the eight stages on a loaded array |
| `FftAccuracy.StageNear` | src/DigitalSignature/HAETAE/haetae_fft.c:304-336 | a stage turns near-values of half blocks into near-values of blocks, the error growing from E to at most 2 E + 1.5 + 1.42 h + 0.71 E / 65536 for half blocks of length h |
| `FftAccuracy.TurnedNear` | src/DigitalSignature/HAETAE/haetae_fft.c:205-233 | the rounded product with a table entry is near the exact turn by that power of z |
| `Evaluation.IdealStep` | src/DigitalSignature/HAETAE/haetae_fft.c:309-334 | on exact values a butterfly with twiddle k << (9 - stage) builds the value at an odd power of z of twice as many coefficients from two half blocks, sum and difference |
| `Evaluation.SplitStrided` | src/DigitalSignature/HAETAE/haetae_fft.c:309-334 | a polynomial is its even part at w^2 plus w times its odd part at w^2 |
| `RootAccuracy.TableIsRounded` | src/DigitalSignature/HAETAE/haetae_fft.c:6-141 | every entry of the shipped root table is 2^16 z^k with both components rounded to the nearest integer |
| `RootAccuracy.Located` | src/DigitalSignature/HAETAE/haetae_fft.c:6-141 | the powers z, z^2, z^4, ..., z^64 lie on the unit circle right of the axis, and z^128 = -i |
| `Fft.CMulExact` | src/DigitalSignature/HAETAE/haetae_fft.c:198-233 | 65536 times each component of the rounded product is within 65536 of the exact complex product |
| `Fft.MagnitudeExact` | src/DigitalSignature/HAETAE/haetae_fft.c:280-288 | 65536 times the computed squared magnitude is within 65536 of the exact one |
| `Fft.Transform` | src/DigitalSignature/HAETAE/haetae_fft.c:299-337 | the array goes through eight stages, each the whole-array butterfly of its twiddles; after stage s every component is within 3^s * 131072, so the final ones fit int32_t |
| `Fft.ComponentBound` | src/DigitalSignature/HAETAE/haetae_fft.c:154-166 | the bound 3^s * 131072 over every run of stages |
| `Fft.StageBound` | src/DigitalSignature/HAETAE/haetae_fft.c:154-166 | a stage at most triples the bound |
| `Fft.Q16Bound` | src/DigitalSignature/HAETAE/haetae_fft.c:154-203 | a rounded Q16 product with a root stays within the other factor's bound |
| `Fft.CMulBound` | src/DigitalSignature/HAETAE/haetae_fft.c:154-225 | a complex product component is within twice the bound |
| `Fft.Butterflies` | src/DigitalSignature/HAETAE/haetae_fft.c:311-334 | the in-place inner loop is the simultaneous butterfly of its block |
| `Fft.Stage` | src/DigitalSignature/HAETAE/haetae_fft.c:305-335 | the blocks of a stage cover the array, each the butterfly of the stage's input |
| `ReversalTable.TableReverses` | src/DigitalSignature/HAETAE/haetae_fft.c:239-255 | every entry of the shipped table is its index with the eight bits reversed |
| `BitReversal.Brv8Involution` | src/DigitalSignature/HAETAE/haetae_fft.c:239-255 | reversing eight bits twice is the identity |
| `BitReversal.Brv8Inner` | src/DigitalSignature/HAETAE/haetae_fft.c:309-315 | a block start and the half block behind it have reversed indices one stride apart |
| `Fft.BitReversedLoad` | src/DigitalSignature/HAETAE/haetae_fft.c:261-278 | position j holds coefficient times root of the bit-reversed index, within 131072 for coefficients in [-2, 2] |
| `Fft.StoredFits` | src/DigitalSignature/HAETAE/haetae_fft.c:176-180 | three to the eighth times the input bound is the declared component bound |
| `Fft.MagnitudeBound` | src/DigitalSignature/HAETAE/haetae_fft.c:280-288 | the squared magnitude is within its declared bound, which is twice the rounded square of the component bound, and ten of them stay below 2^63 |
| `BestM.MinMax` | src/DigitalSignature/HAETAE/haetae_polyvec.c:508-516 | conserves the pair; it is sorted if and only if b - a lies in [-2^63, 2^63), which the range proof guarantees |
| `BestM.Pass` | src/DigitalSignature/HAETAE/haetae_polyvec.c:552-555 | one candidate against all kept sums: multiset conserved, no kept sum decreases, and what is handed on is no larger than any kept sum |
| `BestM.Select` | src/DigitalSignature/HAETAE/haetae_polyvec.c:549-556 | the multiset of sums is conserved and every kept sum is at least every dropped one, for any number kept |
| `BestM.SelectedEnd` | src/DigitalSignature/HAETAE/haetae_polyvec.c:549-556 | the loop invariant at its end is that selection |
| `BestM.Minimum` | src/DigitalSignature/HAETAE/haetae_polyvec.c:558-562 | the least kept sum |
| `Hint.Recover` | src/DigitalSignature/HAETAE/haetae_poly.c:690-709 | fromcrt then freeze2q gives a value in [0, 2q) with the given residue modulo q and parity |
| `Hint.RecombinedIsUnique` | src/DigitalSignature/HAETAE/haetae_poly.c:690-709 | and it is the only such value |
| `Hint.FromCrt` | src/DigitalSignature/HAETAE/haetae_poly.c:690-699 | every coefficient of the recombined polynomial |
| `Hint.DecomposeHint` | src/DigitalSignature/HAETAE/haetae_decompose.c:42-56 | the high bits, with the edge case at the top of the range sent to 0 |
| `Hint.HighBitsRound` | src/DigitalSignature/HAETAE/haetae_decompose.c:42-56 | the high bits round to the nearest multiple of alpha, wrapping at the end of the range |
| `Hint.MakeHint` | src/DigitalSignature/HAETAE/haetae.c:386-388 | the wrapped difference is the difference of high bits modulo (2q - 2) / alpha |
| `Hint.UseHint` | src/DigitalSignature/HAETAE/haetae.c:505-509 | the wrapped sum is the sum modulo (2q - 2) / alpha |
| `Hint.HintRecovers` | src/DigitalSignature/HAETAE/haetae_polyvec.c:232-261 | a hint recovers the high bits of w from w' if and only if it is the one that caddDQ2ALPHA makes |
| `Hint.CAdd` | src/DigitalSignature/HAETAE/haetae_polyvec.c:232-246 | adds the count to exactly the negative entries |
| `Hint.CSub` | src/DigitalSignature/HAETAE/haetae_polyvec.c:248-261 | subtracts the count from exactly the entries that reach it |
| `Hint.DecomposeZ1` | src/DigitalSignature/HAETAE/haetae_decompose.c:16-30 | the low part is in [-128, 128) and recombines; it is in the documented quarter range exactly when (r + 63) mod 256 < 128 |
| `Hint.DecomposeVk` | src/DigitalSignature/HAETAE/haetae_decompose.c:70-77 | recombines with a low part in {-1, 0, 1} that is 0 for even inputs and leaves an even high part for odd ones; the documented range excludes it exactly when a is 1 modulo 4 |

## Left out

- EncodeVector: one method stands for `encode_h` and `encode_hb_z1`, the difference being its alphabet; hint values outside [0, (2q - 2) / alpha), which signing never makes, are not modelled.
- DecodeVector: one method stands for `decode_h` and `decode_hb_z1`; the literal slot tables are modelled as "slot in [start, start + freq)", so the check that a table symbol is in range never fires.
- R2Doubling: the bignums it doubles and subtracts are values, not limb arrays.
- ModBitwise: the bignums it shifts and subtracts are values, not limb arrays.
- MulMod: the product is the schoolbook one where the code may dispatch to another multiplier; exponent 2 uses it too.
- ModExpVartime: exponent bits are those of a number, and outputs are limb sequences rather than replaced objects.
- Mod: the remainder is copied into the output object, which the code frees and replaces.
- ScalarMultiply: point addition and doubling are parameters with stated laws; the group law of the curve and its coordinate formulas are not part of this model.
- Ladder: the differential addition and doubling formulas, the last inversion and the output bytes are not part of this model.
- FeInvert: states the power p - 2; that it is an inverse needs the primality of 2^255 - 19, which is not shown. The X25519 inversion, whose exponent bits are written as a condition, is the same power.
- ShippedTransform: that a z with the stated properties exists is a fact about the real numbers that is not shown here.
- Minimum: the weighting of the kept sums after the minimum is not modelled.
- PackSig: the vectors of polynomials are flattened, as the code treats them, passing the address of the first coefficient.
- Encode: the seed is a parameter and the hash function is uninterpreted; the RSA operation around the block, and PSS, are not part of this model.
- ModExpCt: one base, where the code can carry two through the same scan; ElGamal encryption calls it twice.
- Encrypt: in `ElGamal`, the random exponent is a parameter.
- Operands of limb kernels are passed as snapshots where the code passes addresses within a disjoint region of the same workspace.
- Inner loops are methods of their own, so that each has its own contract.
- Allocation succeeds; null, SIZE_MAX and overlap checks, zeroization and timing are not modelled.
- Masks are modelled by the value they select, except the word-level equality mask, masked copy and conditional swap, which are bit vectors.
- Ed25519 point encoding and decoding, HAETAE sampling, challenge generation, key packing, signing and verification.
- `stage1_add`, `stage1_sub`, the public fixed-base exponentiation, key generation and primality of generated numbers.
- Symmetric ciphers, key derivation and the other signature and key-encapsulation schemes.
