# Verification of the reference models

Dafny 4.11 models of the reference algorithms of this repository and proofs about them. `dafny verify dfyconfig.toml`
checks everything. Each part has its own files; the parts are built on each other where the programs are.

- **400GBASE-R forward error correction** (`scripts/ethfec`): GF(2^10) by logarithm tables, the RS(544,514) encoder,
  Berlekamp-Massey, root search and Forney values, the inversionless variant, and the beat-parallel tables.
  `GF1024`, `GFPowers`, `Poly`, `PowerSums`, `RsCode`, `RsDistance`, `BerlekampMassey`, `Locator`, `Decoder`, `Ribm`,
  `MaskTables`, `Beats`, and `FieldProducts` (this field and that of AES as polynomials modulo their polynomial).
- **400GBASE-R PCS** (`scripts/ethpcs`): transcoder, self-synchronising scrambler, distribution, markers, and the two
  ends of the link over the code above. `Transcoder`, `Scrambling`, `Framing`, `Markers`, `Link`, `Pcs`, and
  `EthernetLine` (what goes out, bit by bit).
- **ML-DSA** (`scripts/mldsa`, FIPS 204): transforms, packing, sampling, rounding, the three algorithms, completeness.
  `Butterflies` and `NttRing` (transforms for any modulus, shared with ML-KEM), `MlDsaNtt`, `Rounding`, `BitPacking`,
  `HintPacking`, `Sampling`, `KeyCodec`, `MlDsa`, `Completeness`; `MlDsaSigned` and `MlDsaVerdict` say in ring products
  what is signed and when it is accepted, `SignatureBytes` what the byte strings spell, `Samples` (shared with ML-KEM)
  what is taken out of a stream, and `NttValues` (likewise) which values a transform holds.
- **ML-KEM** (`scripts/mlkem`, FIPS 203): `MlKemNtt`, `MlKemAlgebra`, `MlKemCodec`, `MlKem`, `Decapsulation`,
  `NoiseBound`, and `KemRing` (keys and ciphertexts in ring products and as bytes).
- **SPDM 1.2 responder** (`scripts/spdm`): `Spdm` (the class), `SpdmRuns` (runs, and what the requester knows),
  `SpdmLengths` (length fields and sizes), `SpdmChecks` (which requests are accepted), `SpdmContents` (what the answers
  say).
- **CAN** (`gen_framework.py`, module `CAN_top`): `Can` (both machines), `CanLine` (the frame on the line), `CanHeard`
  (what the receiver makes of any line).
- **AES-GCM** (`scripts/aes_gcm`, SP 800-38D and FIPS 197): `Ghash`, `GhashField`, `AesField`, `AesSbox`, `Aes`,
  `AesInverse` (the inverse cipher), `Gcm`, `GcmParts`.
- **State-machine extractor** (`scripts/cov`): `FsmExtract` (the walk), `FsmRuns` (what the extracted blocks do),
  `FsmPrecise` (which places give which arcs).
- **DRAM command policy** (`scripts/ddr_lite_policy_model.py`): `Dram`.
- **APB register wrapper and checker** (`scripts/apb`): `ApbLayout` (words of one register), `ApbSpec` (the whole
  layout), `ApbWrapper`, `ApbChecker`, `ApbBuses` (core register ports, reset), `ApbStreams`, `ApbAccess` (what
  software sees).

`Arithmetic`, `XorNat`, `Gf2` (polynomials over two elements), `Modular`, `BitFields`, `Numerals`, `Concatenation`,
`Hashing` and `Options` are shared.

## Conventions

Code that changes things step by step is a method with a loop or a class with fields. It is proved equal to a function
of its inputs or its old state, and the results are proved about that function. A Python exception (an assertion, an
overflow of a byte conversion, the end of a precomputed stream) is the value `None`. Hash functions and extendable-output
functions are parameters: functions of their input with a fixed output length. Random words and configuration inputs are
parameters of each call.

## Where code and promise part

- A message bit of ML-KEM survives noise from -832 up to 832 less the bit (`Decapsulation.DecryptionCorrect`); the
  usual symmetric bound 831 is sufficient (`Decapsulation.SmallNoiseFits`) but not what decides.
- The transcoder keeps four bits of a control block type. A group whose first control block has a known first nibble
  but another second nibble comes back changed and unflagged (`Transcoder.ChangedUnflagged` gives the exact condition,
  `Transcoder.Type0EChanged` a group).
- The table inverse of 0 is 1 and the table power of 0 is 0 also for exponent 0 (`RsCode.Tables.Inverse`,
  `RsCode.Tables.Power`).
- A CAN length code above 8 sends code less 8 bytes instead of 8 (`Can.CountOfCode`, `Can.CodeNine`).
- The address decoder of the APB wrapper compares with the number of words as a ten-bit constant, the checker with an
  integer. `layout` admits 1024 words, and then the constant is 0 and the wrapper answers every access with an error
  (`ApbChecker.DecodersAgree`, `ApbChecker.FullLayoutFails`; `ApbBuses.FullSpecFails` has such a
  specification).
- `layout` does not ask that the index of a core register fits the address port. One that does not reaches the core cut
  to the width of the port, and the checker compares with the whole index (`ApbBuses.BusesHold`,
  `ApbBuses.WideIndexFails`; `ApbBuses.WideSpecFails` has such a specification).
- The checker asserts that PRDATA is zero and no register port is strobed while reset is active, but the wrapper decodes
  accesses also then (`ApbBuses.ResetHolds` says which show, `ApbBuses.ReadInResetFails` gives one).
- The state-machine extractor misses transitions when a reset is tested at its inactive level, a case label is not
  constant, the state is outside its enumerators, or a conversion changes a constant; one lemma of `FsmRuns` shows each.
- The DRAM policy waits T_RCD - 1 cycles after an activation before the access of a miss starts, and T_RCD before a hit;
  only the hit is checked (`Dram.Eng.Transact`, `Dram.FirstMiss`). Refreshes fall due every T_REFI + 1 cycles, not T_REFI.
- The remainder field of a certificate response is two bytes. When 65536 bytes or more remain after the portion the
  conversion overflows, which is an exception that changes nothing (`SpdmRuns.PortionReturned`). Chains of at most
  65536 bytes are always fetched; longer ones are not when the portions are short (`SpdmRuns.EveryPortionAnswered`,
  `SpdmRuns.FirstByteFails`).
- The size check of a request for all measurements counts every bit that the host has set, the answer only those of
  existing measurements. A request whose answer would just fit is refused if and only if the host has set a bit beyond
  the last measurement (`SpdmChecks.SpareBitsRefuse`).
- `expand_key` looks at whole words only: a key of 17 to 19 bytes is taken for its first 16, one of 33 to 35 for its
  first 32 (`AesInverse.RoundKeys`).
- `hint_bit_pack` does not count the ones. Up to k more than omega it returns bytes that `hint_bit_unpack` rejects
  (`HintPacking.HintBitPack`); `sign` tests the count before.

## Model

| member | source | states |
|---|---|---|
| GF1024.Order | scripts/ethfec/rs_ref.py:16 | alpha has order 1023: its power 1023 is 1 and no power to a maximal proper divisor is, so 0x409 is primitive |
| GFPowers.Primitive | scripts/ethfec/rs_ref.py:21-30 | no smaller positive power of alpha is 1: the antilog table has no repetition before entry 1023 |
| GFPowers.LogExp | scripts/ethfec/rs_ref.py:21-30 | logarithm inverts exponentiation on all 1023 exponents |
| GFPowers.MulAssoc | scripts/ethfec/rs_ref.py:33-34 | multiplication of symbols is associative |
| GFPowers.MulComm | scripts/ethfec/rs_ref.py:33-34 | multiplication of symbols is commutative |
| GFPowers.InvMul | scripts/ethfec/rs_ref.py:37-38 | every nonzero symbol has an inverse |
| RsCode.BuildTables | scripts/ethfec/rs_ref.py:21-30 | the set-up loop fills EXP with the powers of alpha (also beyond 1023) and LOG with their logarithms |
| RsCode.Tables.Times | scripts/ethfec/rs_ref.py:33-34 | the log/antilog product is multiplication modulo x^10 + x^3 + 1, zero operands included |
| RsCode.Tables.Inverse | scripts/ethfec/rs_ref.py:37-38 | the table inverse is the field inverse for every nonzero symbol, and 1 for 0, as the code returns |
| RsCode.Tables.Power | scripts/ethfec/rs_ref.py:41-42 | the table power is alpha to (log times exponent) modulo 1023, and 0 for base 0 whatever the exponent |
| FieldProducts.SymbolProduct | scripts/ethfec/rs_ref.py:16-34 | the product of two symbols is what division of their product as polynomials over two elements by x^10 + x^3 + 1 leaves, the exponents written out |
| FieldProducts.PowerOfX | scripts/ethfec/rs_ref.py:21-30 | entry n of the antilog table is the remainder of x^n |
| Gf2.RemainderUnique | scripts/ethfec/rs_ref.py:16-34 | a polynomial of lower degree than the divisor is the remainder for at most one |
| RsCode.GenPoly | scripts/ethfec/rs_ref.py:45-56 | the loop returns the product of (x - alpha^j) for j < 30 |
| RsCode.GeneratorRoots | scripts/ethfec/rs_ref.py:45-56 | the generator vanishes at alpha^0 .. alpha^29 |
| RsCode.Encode | scripts/ethfec/rs_ref.py:59-68 | the shift-register loop is systematic and its output has 30 zero syndromes |
| RsCode.Syndromes | scripts/ethfec/rs_ref.py:71-78 | the Horner loops give the values of the word at alpha^0 .. alpha^29 |
| RsCode.CodewordIsCodeword | scripts/ethfec/rs_ref.py:59-68 | message and remainder together have all 30 syndromes zero, for every message |
| RsDistance.CodewordIff | scripts/ethfec/rs_ref.py:59-68 | a word of 544 symbols has zero syndromes if and only if it is the encoding of its first 514 symbols |
| RsDistance.EncodeLinear | scripts/ethfec/rs_ref.py:59-68 | the encoding of a sum of messages is the sum of the encodings |
| RsDistance.MinimumDistance | scripts/ethfec/rs_ref.py:59-78 | two different codewords differ in at least 31 symbols |
| RsDistance.NearestUnique | scripts/ethfec/rs_ref.py:81-133 | at most one codeword lies within 15 symbols of a word |
| RsDistance.SyndromeOfError | scripts/ethfec/rs_ref.py:71-78 | the syndromes of a received word are the power sums of its error vector, for any codeword it came from |
| BerlekampMassey.LengthBound | scripts/ethfec/rs_ref.py:88-104 | if a register of length L generates r terms but not the next, any register that generates r + 1 terms is at least r + 1 - L long |
| BerlekampMassey.UpdateGenerates | scripts/ethfec/rs_ref.py:92-104 | the update of the locator generates one more syndrome, in the branch that lengthens it and in the one that does not |
| BerlekampMassey.BerlekampMassey | scripts/ethfec/rs_ref.py:86-104 | for all 30 syndromes the loop returns a register that generates them, of the least possible length |
| Locator.RootsAreErrors | scripts/ethfec/rs_ref.py:113-119 | when at most 15 symbols are wrong, L is their number and the zeros found by the search are exactly their positions |
| Decoder.ForneyValue | scripts/ethfec/rs_ref.py:107-129 | at an error position the derivative is nonzero and numerator over denominator, times alpha^pos, is the error value |
| Decoder.Decode | scripts/ethfec/rs_ref.py:81-133 | bounded-distance decoding: whenever a codeword lies within 15 symbols, exactly it is returned; a returned word is a codeword within 15 symbols and the count is its distance; otherwise None and 0 |
| Decoder.DecodeEncoded | scripts/ethfec/rs_ref.py:165-180 | encode, add errors, decode: for every message and every error vector, with at most 15 nonzero symbols exactly the codeword and the error weight come out, and with more the codeword does not |
| Ribm.StepSimulates | scripts/ethfec/rs_ref.py:146-153 | after r steps d holds the coefficients from r up of Lambda times (S + x^45), for a nonzero multiple of the Berlekamp-Massey locator, and theta those of the fallback |
| Ribm.Ribm | scripts/ethfec/rs_ref.py:136-154 | for all 30 syndromes L is the length of every shortest register; with L at most 15, Lambda is a nonzero multiple of its locator and Omega is coefficients 30..44 of Lambda times S |
| Ribm.ShortestUnique | scripts/ethfec/rs_ref.py:136-154 | a shortest register of length at most 15 is unique |
| MaskTables.BuildMasks | scripts/ethfec/gen_tables.py:71-81 | the probing loops build, for each output bit, the row of bits of the map on unit vectors |
| MaskTables.MasksCompute | scripts/ethfec/gen_tables.py:71-81 | for every linear map and every input, the parity of the masked input is the output bit |
| MaskTables.TableComputes | scripts/ethfec/gen_tables.py:60-81 | the same for additive maps of symbol vectors in their 10-bit packing |
| Beats.XModLoop | scripts/ethfec/gen_tables.py:35-45 | the loop computes x^e modulo the generator |
| Beats.EncLoop | scripts/ethfec/gen_tables.py:91-103 | the two nested loops compute the state after n more symbols as a combination of powers of x |
| Beats.BeatIsRun | scripts/ethfec/gen_tables.py:91-103 | one beat of the encoder equals n steps of the shift register, from every state |
| Beats.BeatsEncode | scripts/ethfec/gen_tables.py:91-103 | 16 beats of 32 symbols and one of 2 give the parity that the serial encoder computes |
| Beats.SynBeatAdvances | scripts/ethfec/gen_tables.py:105-108 | one syndrome beat advances the Horner value of every syndrome by 32 symbols |
| Beats.BeatsSyndromes | scripts/ethfec/gen_tables.py:105-108 | 17 beats give the syndromes of the serial code |
| Beats.LaneValue | scripts/ethfec/gen_tables.py:110-119 | scaling by -543 and then by 32 a beat puts the value at alpha^(32 b + k - 543) on lane k |
| Beats.BeatsSearch | scripts/ethfec/gen_tables.py:110-119 | every one of the 544 positions gets, on its beat and lane, the Lambda value that the serial search tests |
| Beats.OddPlusEven | scripts/ethfec/gen_tables.py:110-114 | the odd and even halves add up to the value |
| Beats.PowerIsSquared | scripts/ethfec/gen_tables.py:122-123 | the squaring tables compute the serial power for exponents 2, 4 and 16 |
| Beats.TablesCompute | scripts/ethfec/gen_tables.py:71-119 | the encoder, syndrome, evaluation, scaling and squaring tables compute their maps on every input |
| Transcoder.RoundTrip | scripts/ethpcs/pcs_ref.py:99-135 | a group comes back unchanged and unflagged if and only if it is all data, or its headers are valid and the type of its first control block is the known one for its first nibble; it comes back flagged exactly when a header is invalid or that nibble is unknown |
| Transcoder.ChangedUnflagged | scripts/ethpcs/pcs_ref.py:99-135 | a group comes back changed and unflagged if and only if its headers are valid, the first nibble is known and the second is not the one that belongs to it |
| Transcoder.Type0EChanged | scripts/ethpcs/pcs_ref.py:99-135 | four control blocks of type 0x0E come back changed and unflagged |
| Scrambling.Scrambler.Scramble | scripts/ethpcs/pcs_ref.py:145-151 | the bit loop scrambles with taps 39 and 58 and leaves the last 58 line bits as history |
| Scrambling.Scrambler.Descramble | scripts/ethpcs/pcs_ref.py:153-159 | the bit loop descrambles with the line as history |
| Scrambling.DescrambleScrambled | scripts/ethpcs/pcs_ref.py:138-159 | descrambling with the same history undoes scrambling |
| Scrambling.SelfSynchronising | scripts/ethpcs/pcs_ref.py:138-159 | after 58 line bits two descramblers agree whatever their histories were |
| Scrambling.Prbs9.Take | scripts/ethpcs/pcs_ref.py:86-92 | the loop takes n pad bits and moves the state on |
| Scrambling.PrbsRecurrence | scripts/ethpcs/pcs_ref.py:80-92 | every pad bit is the sum of the ones 9 and 5 before it |
| Framing.Merge | scripts/ethpcs/pcs_ref.py:230-232 | the loop puts the two messages together |
| Framing.MergeSplit | scripts/ethpcs/pcs_ref.py:162-167 | merging what was split gives the pair back |
| Framing.Interleave | scripts/ethpcs/pcs_ref.py:170-179 | the loops fill all 1088 places |
| Framing.Deinterleave | scripts/ethpcs/pcs_ref.py:182-189 | the loops fill both codewords |
| Framing.DeinterleaveInterleave | scripts/ethpcs/pcs_ref.py:170-189 | deinterleaving undoes interleaving |
| Framing.InterleaveDeinterleave | scripts/ethpcs/pcs_ref.py:170-189 | interleaving undoes deinterleaving |
| Markers.AmMappedFixed | scripts/ethpcs/pcs_ref.py:65-74 | the loops place the sixteen markers |
| Markers.LaneCarriesMarker | scripts/ethpcs/pcs_ref.py:65-74 | after encoding and interleaving, lane x carries the twelve symbols of marker x first |
| EthernetLine.SentInOrder | scripts/ethpcs/pcs_ref.py:170-179 | every transmitted symbol is, of its codeword, the one after all that have been transmitted before |
| EthernetLine.LanesAlternate | scripts/ethpcs/pcs_ref.py:170-179 | lane x of row r carries the first codeword if and only if x + r is even |
| EthernetLine.SentBit | scripts/ethpcs/pcs_ref.py:162-179 | bit k of a transmitted message symbol, number i of its codeword, is bit 20 i + k of the pair for the first codeword and 20 i + 10 + k for the second |
| EthernetLine.MarkerPairLayout | scripts/ethpcs/pcs_ref.py:95-96 | a marker pair is 96 slots of marker bits, 133 bits each the sum of those nine and five before it, three status bits, the lowest first, and the line of 32 groups |
| EthernetLine.DataPair | scripts/ethpcs/pcs_ref.py:197-212 | a pair without marker is the line of 40 groups |
| EthernetLine.LineRecurrence | scripts/ethpcs/pcs_ref.py:138-151 | over all blocks of a line, every bit is that of the blocks plus those sent 39 and 58 before it |
| EthernetLine.LineContinues | scripts/ethpcs/pcs_ref.py:192-212 | scrambling goes on over all pairs as one line, whatever markers are between |
| EthernetLine.PeriodCounts | scripts/ethpcs/pcs_ref.py:192-212 | every amp-th pair carries a marker, and the pad of each goes on where that of the last ended |
| EthernetLine.BlockBits | scripts/ethpcs/pcs_ref.py:99-112 | where every payload bit of a group stands in its 257-bit block, what the first bit and the four flags say, and which four bits are left out |
| EthernetLine.ReadBackBits | scripts/ethpcs/pcs_ref.py:115-135 | for any 257 bits: the flag, the headers, and every payload bit of the four blocks, with the missing half of the type put back, or zeros where there is none |
| EthernetLine.BlockTypes | scripts/ethpcs/pcs_ref.py:29-30 | a block type has its sent half below, and above it the same or its complement, by the number of ones |
| EthernetLine.BlockTypesSent | scripts/ethpcs/pcs_ref.py:29-30 | there is a block type for every half but 0, 3, 5, 6 and 13 |
| EthernetLine.MarkersBalanced | scripts/ethpcs/pcs_ref.py:33-50 | the second half of every marker is the complement of the first |
| EthernetLine.CommonOctets | scripts/ethpcs/pcs_ref.py:33-50 | all markers begin with the same three octets |
| EthernetLine.MarkersDiffer | scripts/ethpcs/pcs_ref.py:33-50 | no two lanes share their unique octets |
| Pcs.Tx.SendPair | scripts/ethpcs/pcs_ref.py:197-212 | a pair of the transmitter is the step of its state machine: marker period, scrambler history and pad state included |
| Pcs.Rx.ReceivePair | scripts/ethpcs/pcs_ref.py:224-270 | a pair of the receiver is the step of its state machine, for any 1088 symbols: output, events, lock, period, misses, status |
| Link.PairRecovered | scripts/ethpcs/pcs_ref.py:197-236 | with at most 15 symbol errors in each codeword the pair arrives as sent |
| Link.LinkIdentity | scripts/ethpcs/pcs_ref.py:192-270 | for every marker period and every sequence of valid groups, transmission, at most 15 symbol errors a codeword and reception from reset give exactly the groups sent |
| Link.LateJoin | scripts/ethpcs/pcs_ref.py:224-270 | a receiver that joins after at least one whole clean pair gives exactly the groups from its first marker pair on, if no data pair before looks like a marker |
| Link.PairExact | scripts/ethpcs/pcs_ref.py:224-270 | a clean pair received in step comes out exactly, raises no event, and keeps the ends in step |
| Link.PairSkipped | scripts/ethpcs/pcs_ref.py:237-244 | an unlocked receiver drops a pair without marker and keeps the history of the line |
| Link.AnyPairKeepsPlace | scripts/ethpcs/pcs_ref.py:237-270 | whatever arrives, a receiver that stays locked keeps its place in the marker period; it loses lock exactly at the third missing marker in an undamaged pair; a damaged pair comes out with error headers on every block |
| Link.Resynchronises | scripts/ethpcs/pcs_ref.py:224-270 | one clean pair, or a marker pair for an unlocked receiver, brings back step: all its groups but the first are exact |
| Butterflies.ZetaMirror | scripts/mldsa/mldsa_ref.py:78-92 | the descending twiddle of an inverse layer is minus the inverse of the ascending one |
| Butterflies.InttNtt | scripts/mldsa/mldsa_ref.py:61-93 | the inverse transform undoes the transform, modulo q |
| Butterflies.NttIntt | scripts/mldsa/mldsa_ref.py:61-93 | the transform undoes the inverse transform, modulo q |
| Butterflies.NttLinear | scripts/mldsa/mldsa_ref.py:61-75 | the transform is linear modulo q |
| MlDsaNtt.Ntt | scripts/mldsa/mldsa_ref.py:61-75 | the in-place loops with the running twiddle index compute the layered transform |
| MlDsaNtt.Intt | scripts/mldsa/mldsa_ref.py:78-93 | the in-place inverse loops and the final scaling compute the inverse transform |
| MlDsaNtt.NttIsEvaluation | scripts/mldsa/mldsa_ref.py:61-75 | entry j of the transform is the value of the polynomial at the j-th root of x^256 + 1 |
| MlDsaNtt.RingIsomorphism | scripts/mldsa/mldsa_ref.py:61-97 | pointwise products of transforms transform back to the product in Z_q[x]/(x^256 + 1) |
| NttValues.SignatureTransform | scripts/mldsa/mldsa_ref.py:52-75 | entry j of the transform is the sum of w[i] y^i with y = 1753 to the power 2 brv8(j) + 1, modulo 8380417, in plain integers |
| NttRing.ProductBounded | scripts/mldsa/mldsa_ref.py:388-389 | the product with a polynomial of weight tau is bounded by tau times the other bound |
| Rounding.Power2RoundParts | scripts/mldsa/mldsa_ref.py:292-295 | both parts are in range and give back r modulo q |
| Rounding.DecomposeSplits | scripts/mldsa/mldsa_ref.py:298-304 | the parts satisfy r = r1 * 2 g2 + r0 modulo q with |r0| at most g2, the wrap at q - 1 included |
| Rounding.SplitUnique | scripts/mldsa/mldsa_ref.py:298-304 | no other parts do |
| Rounding.HintRecovers | scripts/mldsa/mldsa_ref.py:315-326 | for every r, and every z of size at most g2 modulo q, the hint recovers the high bits of r + z |
| Rounding.HighBitsStable | scripts/mldsa/mldsa_ref.py:307-312 | a low part under g2 - b keeps the high bits under every shift of size at most b |
| BitFields.BitsToBytes | scripts/mldsa/mldsa_ref.py:109-113 | the bit loop packs eight bits to a byte, the first lowest |
| BitPacking.SimpleRoundTrip | scripts/mldsa/mldsa_ref.py:120-128 | coefficients up to the bound come back |
| BitPacking.SimpleCanonical | scripts/mldsa/mldsa_ref.py:120-128 | every byte string of the right length is the packing of what it unpacks to |
| BitPacking.CentredRoundTrip | scripts/mldsa/mldsa_ref.py:131-139 | coefficients between the bounds come back as their centred representatives |
| BitPacking.CentredCanonical | scripts/mldsa/mldsa_ref.py:131-139 | for a range of a power of two, every byte string is the packing of what it unpacks to |
| HintPacking.HintBitPack | scripts/mldsa/mldsa_ref.py:142-152 | for any number of ones: up to omega the loops write their positions, the row ends, and zeros; up to k more they write bytes that the decoder rejects; beyond that, or when a row end exceeds a byte, they fail |
| HintPacking.HintBitUnpack | scripts/mldsa/mldsa_ref.py:155-171 | the loops accept y exactly when it is the encoding of some hint with at most omega ones, and return that hint |
| HintPacking.HintRoundTrip | scripts/mldsa/mldsa_ref.py:142-171 | every hint with at most omega ones survives packing and unpacking |
| HintPacking.PackInjective | scripts/mldsa/mldsa_ref.py:142-152 | two hints with the same encoding are the same |
| Sampling.Xof.Get | scripts/mldsa/mldsa_ref.py:41-45 | the next n bytes, or an exception past the end of the buffer; the position moves either way |
| Sampling.SampleInBall | scripts/mldsa/mldsa_ref.py:231-242 | the loop with the running swap computes the ball sample, or fails when the stream ends |
| Sampling.BallShape | scripts/mldsa/mldsa_ref.py:231-242 | on every byte stream on which it finishes, exactly tau entries are plus or minus 1 and the rest 0 |
| Sampling.RejNttPoly | scripts/mldsa/mldsa_ref.py:245-253 | the rejection loop returns the first 256 accepted values |
| Sampling.RejBoundedPoly | scripts/mldsa/mldsa_ref.py:264-273 | the half-byte rejection loop returns the first 256 accepted values |
| Sampling.RejBoundedRange | scripts/mldsa/mldsa_ref.py:256-273 | all of them lie between -eta and eta |
| Samples.MatrixSample | scripts/mldsa/mldsa_ref.py:245-253 | a matrix entry takes of its stream the first 256 groups of 23 bits that are below 8380417, none passed over; it fails only when there are fewer |
| Samples.SecretSample | scripts/mldsa/mldsa_ref.py:256-273 | a secret polynomial takes the first 256 half bytes below 15 or 9, as 2 - b mod 5 or 4 - b, the low half first, none passed over |
| Samples.ChallengeSample | scripts/mldsa/mldsa_ref.py:231-242 | pass k takes the first byte of at most its place behind the byte before; every entry, traced back through the swaps, is the sign that bit k of the stream gave it, or 0; it fails exactly when no byte is left to take |
| KeyCodec.PkRoundTrip | scripts/mldsa/mldsa_ref.py:174-181 | a public key of the right length decodes to what was encoded |
| KeyCodec.SkRoundTrip | scripts/mldsa/mldsa_ref.py:188-203 | a secret key of the right length decodes to the centred vectors that were encoded |
| KeyCodec.SigRoundTrip | scripts/mldsa/mldsa_ref.py:210-219 | a signature of the right length decodes to what was encoded |
| SignatureBytes.PublicKeyBytes | scripts/mldsa/mldsa_ref.py:174-175 | a public key is the seed and, for each entry of t1, 320 bytes that spell its coefficients as digits of ten bits |
| SignatureBytes.SecretKeyBytes | scripts/mldsa/mldsa_ref.py:188-191 | a secret key is seed, mask key, public key hash, and numbers with the digits eta - s1, eta - s2 and 4096 - t0, of three or four and of thirteen bits |
| SignatureBytes.ResponseBytes | scripts/mldsa/mldsa_ref.py:210-211 | a signature is the commitment, numbers with the digits gamma1 - z of 18 or 20 bits, and the encoded hint |
| SignatureBytes.HintBytes | scripts/mldsa/mldsa_ref.py:142-152 | between two row ends stand, ascending, exactly the positions of the ones of that row; places that are left hold zeros |
| SignatureBytes.HighPartBytes | scripts/mldsa/mldsa_ref.py:222-228 | encoded high parts are numbers with digits of six or four bits |
| MlDsa.KeyGen | scripts/mldsa/mldsa_ref.py:335-356 | key generation, with the loops of transforms and samplers, is the function that completeness is proved of, exceptions included |
| MlDsaSigned.KeyGenMakes | scripts/mldsa/mldsa_ref.py:276-356 | a generated key holds the matrix and the secrets of its numbered streams, t1 2^13 + t0 = A s1 + s2 in Z_q[x]/(x^256 + 1) with t0 in (-4096, 4096], and the hash of the public key |
| MlDsaSigned.KeyGenSucceeds | scripts/mldsa/mldsa_ref.py:276-356 | if every stream is long enough a key is generated |
| MlDsa.Sign | scripts/mldsa/mldsa_ref.py:359-414 | signing returns the encoding of the first attempt that passes all four tests, or fails when the key is too short, a stream ends or the two-byte counter overflows |
| MlDsaSigned.SignIsFirst | scripts/mldsa/mldsa_ref.py:359-414 | a signature is returned if and only if it is that of the first attempt that passes: masks from the streams numbered kappa on, w = A y, the commitment the hash of its high parts, z = y + c s1, the hint where c t0 changes a high part of w - c s2, and all attempts before fail one of the four tests |
| MlDsa.Verify | scripts/mldsa/mldsa_ref.py:417-440 | the loops compute the verdict, or fail when a stream ends; when it is True is `MlDsaVerdict.VerdictIff` |
| MlDsaVerdict.RecomputedIsRing | scripts/mldsa/mldsa_ref.py:427-436 | what verification recomputes is A z - c t1 2^13 in Z_q[x]/(x^256 + 1), A given by its transform |
| MlDsaVerdict.VerdictIff | scripts/mldsa/mldsa_ref.py:417-440 | the answer is True if and only if the key encodes a seed and a t1, the signature encodes a commitment, a z below gamma1 - beta and a hint with at most omega ones, and the commitment is the hash of the message hash and the encoded high parts of A z - c t1 2^13 with that hint |
| MlDsaVerdict.AcceptedTwice | scripts/mldsa/mldsa_ref.py:417-440 | a signature that one key accepts for two messages gives one string that hashes, behind both message hashes, to its first lam/4 bytes |
| MlDsaVerdict.HighPartsBound | scripts/mldsa/mldsa_ref.py:226-227 | encoded high parts determine the high parts |
| Completeness.RowCombines | scripts/mldsa/mldsa_ref.py:377-381 | a matrix row times a combination of vectors is the combination of the products |
| Completeness.ChallengeProduct | scripts/mldsa/mldsa_ref.py:388-389 | the products with the challenge are bounded by tau times eta |
| Completeness.RecomputedRow | scripts/mldsa/mldsa_ref.py:431-436 | A z - c t1 2^13 is w - c s2 + c t0 |
| Completeness.HintsRecoverRow | scripts/mldsa/mldsa_ref.py:437 | with an accepted attempt, the hints turn the recomputed row into the high bits of w |
| Completeness.AttemptRecovers | scripts/mldsa/mldsa_ref.py:372-437 | an attempt that passes the four tests lets the verifier recompute its commitment |
| Completeness.SignaturesVerify | scripts/mldsa/mldsa_ref.py:335-440 | completeness: for every parameter set, seed, message, randomness and external mu, a signature that signing returns under a generated key is accepted |
| MlKemNtt.Ntt | scripts/mlkem/mlkem_ref.py:93-105 | the in-place seven-layer loops compute the transform |
| MlKemNtt.Intt | scripts/mlkem/mlkem_ref.py:108-120 | the in-place inverse loops compute the inverse transform |
| MlKemNtt.MulNtt | scripts/mlkem/mlkem_ref.py:123-129 | the loop multiplies the 128 pairs |
| MlKemNtt.NttIsResidue | scripts/mlkem/mlkem_ref.py:93-105 | a pair of the transform is the residue of the polynomial modulo x^2 - gamma |
| MlKemNtt.RingIsomorphism | scripts/mlkem/mlkem_ref.py:93-129 | pairwise products of transforms transform back to the product in Z_q[x]/(x^256 + 1) |
| NttValues.EncapsulationTransform | scripts/mlkem/mlkem_ref.py:18-24 | entries 2i and 2i + 1 are the sums of w[2m] y^m and w[2m + 1] y^m with y = 17 to the power 2 brv7(i) + 1, modulo 3329, in plain integers |
| MlKemAlgebra.MulAssociates | scripts/mlkem/mlkem_ref.py:123-129 | the pairwise product is associative |
| MlKemAlgebra.MulCommutes | scripts/mlkem/mlkem_ref.py:123-129 | the pairwise product is commutative |
| MlKemAlgebra.MulDistributes | scripts/mlkem/mlkem_ref.py:123-137 | and distributes over addition |
| MlKemAlgebra.MatrixCancels | scripts/mlkem/mlkem_ref.py:153-180 | y times (A s) equals s times (transposed A y) |
| MlKemCodec.ByteEncode | scripts/mlkem/mlkem_ref.py:45-49 | the loop builds the byte string of the fields |
| MlKemCodec.DecodeEncode | scripts/mlkem/mlkem_ref.py:45-55 | decoding an encoding gives the fields reduced modulo q or 2^d |
| MlKemCodec.EncodeDecode | scripts/mlkem/mlkem_ref.py:45-55 | encoding a decoding gives the bytes back if and only if every field is below the modulus |
| MlKemCodec.CompressError | scripts/mlkem/mlkem_ref.py:58-63 | decompressing a compressed value is off by at most q / 2^(d+1), rounded, modulo q |
| MlKemCodec.BitSurvives | scripts/mlkem/mlkem_ref.py:58-63 | a message bit survives exactly a shift between -832 and 832 less the bit |
| MlKemCodec.SampleNtt | scripts/mlkem/mlkem_ref.py:67-79 | the rejection loop returns the first 256 accepted values, or fails when the stream ends |
| MlKemCodec.SampleCbd | scripts/mlkem/mlkem_ref.py:82-89 | the loop sums the bits |
| MlKemCodec.CbdSmall | scripts/mlkem/mlkem_ref.py:82-89 | every coefficient lies between -eta and eta |
| Samples.KemSample | scripts/mlkem/mlkem_ref.py:67-79 | a matrix entry takes of its stream the first 256 groups of twelve bits that are below 3329, none passed over |
| Samples.BinomialTwo | scripts/mlkem/mlkem_ref.py:82-89 | for eta 2 a coefficient is bits 4i and 4i + 1 less bits 4i + 2 and 4i + 3 of the stream |
| Samples.BinomialThree | scripts/mlkem/mlkem_ref.py:82-89 | for eta 3 it is three bits less three bits |
| MlKem.PkeKeyGen | scripts/mlkem/mlkem_ref.py:146-160 | key generation, with the loops of matrix, samplers, transforms and encodings, is the function that decryption correctness is proved of |
| MlKem.PkeEncrypt | scripts/mlkem/mlkem_ref.py:163-184 | encryption, with the same loops, is the function that decryption correctness is proved of |
| MlKem.PkeDecrypt | scripts/mlkem/mlkem_ref.py:187-196 | decryption, with its loops, is the function that decryption correctness is proved of |
| KemRing.KeyIs | scripts/mlkem/mlkem_ref.py:140-160 | a generated key holds t = A s + e in Z_q[x]/(x^256 + 1), with the matrix and the secrets of their numbered streams, and fails only if a matrix stream is too short |
| KemRing.PublicKeyBytes | scripts/mlkem/mlkem_ref.py:158 | a public key spells the transforms of t in digits of twelve bits and ends with the seed of the matrix |
| KemRing.CiphertextIs | scripts/mlkem/mlkem_ref.py:163-184 | a ciphertext is that of u = A^T y + e1 and v = t y + e2 + 1665 for each bit of the message, with the samples of their numbered streams, for every public key |
| KemRing.CiphertextBytes | scripts/mlkem/mlkem_ref.py:182-184 | a ciphertext spells the compressed coefficients in digits of du and dv bits |
| Decapsulation.DecryptedIsMessagePlusNoise | scripts/mlkem/mlkem_ref.py:146-196 | what decryption compresses is the encoded message plus the noise polynomial, coefficient by coefficient modulo q |
| Decapsulation.DecryptionCorrect | scripts/mlkem/mlkem_ref.py:146-196 | decryption returns the message if and only if every noise coefficient stays within -832 and 832 less its bit |
| Decapsulation.SmallNoiseFits | scripts/mlkem/mlkem_ref.py:187-196 | noise of at most 831 in absolute value stays within |
| NoiseBound.NoiseBounded | scripts/mlkem/mlkem_ref.py:146-196 | the noise is at most the weight of y times the bound of e, plus the bound of e2, plus the rounding error of v, plus the weight of s times the bound of e1 and the rounding error of u |
| NoiseBound.RoundingsOfParameters | scripts/mlkem/mlkem_ref.py:58-63 | with the parameter sets rounding adds at most 2 to u and 104 to v, or 1 and 52 for the largest |
| NoiseBound.LightSecretsDecrypt | scripts/mlkem/mlkem_ref.py:146-196 | when that bound is at most 831 for the sampled secrets, decryption returns every message |
| Decapsulation.DecapsulationCorrect | scripts/mlkem/mlkem_ref.py:200-216 | for every d, z, m and parameter set, with noise that stays within, decapsulation returns the key that encapsulation returned; for all other ciphertexts see `Decapsulation.ImplicitRejection` |
| Decapsulation.ImplicitRejection | scripts/mlkem/mlkem_ref.py:205-216 | for every generated key and every c: if encapsulating the message that c decrypts to gives c, the answer is the key of that encapsulation, and otherwise shake256 of z and c |
| Decapsulation.EncapsulatedKey | scripts/mlkem/mlkem_ref.py:205-207 | key and coins are the two halves of sha3_512 of the message and the hash of the public key |
| KemRing.KeyPair | scripts/mlkem/mlkem_ref.py:200-202 | a decapsulation key is the secret part, the public key, its hash and z |
| Decapsulation.GeneratedKeysPass | scripts/mlkem/mlkem_ref.py:219-230 | generated keys pass both key checks |
| Decapsulation.EkCheckMeans | scripts/mlkem/mlkem_ref.py:219-223 | the encapsulation key check holds exactly when all its 12-bit fields are below q |
| KemRing.DkCheckMeans | scripts/mlkem/mlkem_ref.py:226-230 | the check accepts exactly strings of 384 k bytes, 384 k + 32 bytes, the hash of these, and 32 bytes |
| Spdm.Responder.Handle | scripts/spdm/spdm_ref.py:169-243 | a request updates the fields as the request table says: check first, then the answer of its code; which are accepted is `SpdmChecks.AcceptedIff`, what the answers say is `SpdmContents.ResponsesSay` |
| Spdm.Responder.KeyGen | scripts/spdm/spdm_ref.py:79-83 | key generation sets the key and nothing else |
| Spdm.Responder.Clear | scripts/spdm/spdm_ref.py:85-87 | clearing drops key and connection |
| SpdmRuns.RejectedChangesNothing | scripts/spdm/spdm_ref.py:106-174 | a rejected request changes nothing, is answered by a four-byte ERROR with its code, and leaves a requester's view alone |
| SpdmRuns.AcceptedSeen | scripts/spdm/spdm_ref.py:169-243 | after an accepted request a requester that reads the exchange holds the same connection, and the stage moves only by VERSION, CAPABILITIES and ALGORITHMS |
| SpdmRuns.RequesterKnows | scripts/spdm/spdm_ref.py:56-243 | over every interleaving of requests, key generation, clearing and configuration, stage, vca, tm, tl, dts and the negotiated flags are what a requester folds from the wire |
| SpdmLengths.ResponsesFit | scripts/spdm/spdm_ref.py:110-243 | every response to every request has true length and count fields (error, version, capabilities, algorithms, digests, certificate, challenge, and measurements with number available, block count and record length), and with a transfer size agreed before or by the request it fits that size |
| SpdmRuns.SignedResponsesVerify | scripts/spdm/spdm_ref.py:282-288 | in every run, signatures of CHALLENGE and GET_MEASUREMENTS verify over the requester's own transcript |
| SpdmChecks.AcceptedIff | scripts/spdm/spdm_ref.py:110-166 | a request is accepted if and only if it has a right size and version, is supported in the present stage, is well formed, and its answer fits the agreed transfer size |
| SpdmChecks.ErrorCodes | scripts/spdm/spdm_ref.py:110-166 | exactly when each error code is given |
| SpdmChecks.NeededIsLength | scripts/spdm/spdm_ref.py:145-166 | the length that is checked is that of the answer; for all measurements it may be more, when a bit beyond the last measurement is set |
| SpdmChecks.SpareBitsRefuse | scripts/spdm/spdm_ref.py:148-166 | a request for all measurements that would just fit is refused for its size if and only if the host has set a bit beyond the last measurement |
| SpdmContents.ResponsesSay | scripts/spdm/spdm_ref.py:169-243 | every answer, read from its bytes: versions, capabilities, what was selected, hash of the chain, the portion, the nonce, and the blocks of exactly the measurements asked for (one, all enabled in ascending order, or none) or their hash, cut to the trusted base |
| SpdmContents.OneMeasurement | scripts/spdm/spdm_ref.py:229-243 | for index i the answer has number i, type i and value i, and i is enabled |
| SpdmContents.MessageSpelled | scripts/spdm/spdm_ref.py:50-53 | a signature covers four times the prefix, the context with zeros in front, and the hash of the transcript |
| SpdmRuns.PortionReturned | scripts/spdm/spdm_ref.py:210-217 | for a chain of any length a certificate request is answered if and only if fewer than 65536 bytes remain after its portion; the answer has true portion and remainder lengths, and without one nothing changes |
| SpdmRuns.EveryPortionAnswered | scripts/spdm/spdm_ref.py:210-217 | every certificate request with nonzero length is answered if and only if the chain has at most 65536 bytes |
| SpdmRuns.FirstByteFails | scripts/spdm/spdm_ref.py:210-217 | the first byte of a chain of 65537 bytes cannot be fetched alone |
| SpdmRuns.FetchChain | scripts/spdm/spdm_ref.py:210-217 | a fetch loop with nonzero lengths ends; it never returns a wrong chain, and every chain of at most 65536 bytes is rebuilt |
| Can.Transmitter.Step | gen_framework.py:3687-3741 | one bit time of the transmitter is its step function; what that puts on the line is `CanLine.FrameOnTheLine` |
| Can.Receiver.Step | gen_framework.py:3779-3848 | one bit time of the receiver is its step function; what that takes from any line is `CanHeard.ReceiverJudges` |
| Can.CountOfCode | gen_framework.py:3713-3723 | the number of bytes sent is the lesser of the length code and 8 if and only if the code is at most 8; above it is the code less 8 |
| Can.CodeNine | gen_framework.py:3713-3723 | length code 9 sends one byte |
| Can.LockKept | gen_framework.py:3649-3850 | every bit time keeps run counters, previous bits, CRCs and positions equal, until the frame ends delivered without error |
| Can.LineGrows | gen_framework.py:3701-3712 | a bit sent under the stuffing rule never makes six equal bits |
| Can.FrameArrives | gen_framework.py:3649-3850 | for every id, length code and data, stepping both machines from idle ends with the same id, length and bytes, rx_err clear, and no six equal bits from SOF to the last CRC bit |
| CanLine.CrcIsRemainder | gen_framework.py:3649-3655 | after any bits the register is the remainder of these bits times x^15 modulo x^15 + x^14 + x^10 + x^8 + x^7 + x^4 + x^3 + 1, the exponents written out |
| CanLine.FrameOnTheLine | gen_framework.py:3687-3741 | for every id, length code and data the wire without stuff bits is SOF, id, three dominant bits, length code, the data bytes and their remainder, followed by a recessive delimiter, a dominant acknowledgement, its delimiter and seven recessive bits |
| CanHeard.ReceiverJudges | gen_framework.py:3779-3848 | for every stuffed line of the form of a frame the receiver takes id, length and bytes from the line without stuff bits, and acknowledges, reports and clears its error flag if and only if the last fifteen bits are the remainder of all before |
| Ghash.GfMul | scripts/aes_gcm/gcm_ref.py:80-87 | the loop computes the product by halvings |
| Ghash.MulXor | scripts/aes_gcm/gcm_ref.py:80-87 | multiplication distributes over exclusive or, on both sides |
| Ghash.MulUnit | scripts/aes_gcm/gcm_ref.py:80-87 | 2^127 is the unit, on both sides |
| Ghash.MulAssociates | scripts/aes_gcm/gcm_ref.py:80-87 | multiplication is associative |
| Ghash.MulCommutes | scripts/aes_gcm/gcm_ref.py:80-87 | multiplication is commutative |
| Ghash.GhashIsPolynomial | scripts/aes_gcm/gcm_ref.py:90-94 | the hash is the sum of X_i h^(n-i) |
| GhashField.ProductIsRemainder | scripts/aes_gcm/gcm_ref.py:77-87 | the product of two blocks is the remainder of the product of their polynomials modulo x^128 + x^7 + x^2 + x + 1 |
| GhashField.PolynomialDetermines | scripts/aes_gcm/gcm_ref.py:77-87 | blocks with the same polynomial are the same |
| AesField.Gmul | scripts/aes_gcm/gcm_ref.py:16-22 | the loop computes the product in GF(2^8) |
| AesField.GmulComm | scripts/aes_gcm/gcm_ref.py:16-22 | that product is commutative |
| AesField.GmulAssoc | scripts/aes_gcm/gcm_ref.py:16-22 | and associative |
| AesField.Frobenius | scripts/aes_gcm/gcm_ref.py:16-22 | every byte is its own 256th power |
| AesField.Inverse | scripts/aes_gcm/gcm_ref.py:28 | every nonzero byte has an inverse, so the search of the set-up loop always ends |
| AesField.InverseUnique | scripts/aes_gcm/gcm_ref.py:28 | and only one |
| FieldProducts.ByteProduct | scripts/aes_gcm/gcm_ref.py:12-22 | the product of two bytes is the remainder of their product as polynomials modulo x^8 + x^4 + x^3 + x + 1 |
| AesSbox.Sbox | scripts/aes_gcm/gcm_ref.py:25-33 | the set-up loop with its shifts fills the table |
| AesSbox.ShiftRotates | scripts/aes_gcm/gcm_ref.py:29-31 | the or of the two shifted bytes, cut to eight bits, is the rotated byte |
| AesSbox.SboxInjective | scripts/aes_gcm/gcm_ref.py:25-33 | no two bytes have the same entry |
| Aes.ColumnRows | scripts/aes_gcm/gcm_ref.py:68-71 | each mixed byte is the byte plus the column sum plus twice the sum with its neighbour |
| Aes.MixInjective | scripts/aes_gcm/gcm_ref.py:65-72 | column mixing loses nothing |
| Aes.ShiftInjective | scripts/aes_gcm/gcm_ref.py:63 | row shifting loses nothing |
| Aes.ExpandKey | scripts/aes_gcm/gcm_ref.py:39-55 | the loop with the running round constant builds the schedule for 4 or 8 key words, and fails otherwise |
| Aes.WordsDetermineKey | scripts/aes_gcm/gcm_ref.py:44-54 | nk consecutive words anywhere in the schedule determine the key |
| Aes.AesEncrypt | scripts/aes_gcm/gcm_ref.py:58-74 | the rounds with the table are the function that `AesInverse.DecryptUndoes` inverts, or fail on a key of other than 4 or 8 whole words |
| Aes.EncryptInjective | scripts/aes_gcm/gcm_ref.py:58-74 | under every 16- or 32-byte key, different blocks encrypt to different blocks |
| AesInverse.InvSboxUndoes | scripts/aes_gcm/gcm_ref.py:25-33 | the inverse of FIPS 197, by rotations by 1, 3 and 6, the constant 05 and the field inverse, undoes the table |
| AesInverse.InvShiftMoves | scripts/aes_gcm/gcm_ref.py:63 | the inverse shift moves the byte of row r and column c to column c + r |
| AesInverse.InvShiftUndoes | scripts/aes_gcm/gcm_ref.py:63 | and undoes the shift |
| AesInverse.InvMixUndoes | scripts/aes_gcm/gcm_ref.py:65-72 | the product with 0e, 0b, 0d, 09 undoes the mixing of columns |
| AesInverse.DecryptUndoes | scripts/aes_gcm/gcm_ref.py:58-74 | the inverse cipher of section 5.3 of FIPS 197 undoes encryption, for every key and block |
| AesInverse.ScheduleByte | scripts/aes_gcm/gcm_ref.py:39-55 | every byte of the schedule as section 5.2 of FIPS 197 gives it |
| AesInverse.RoundKeys | scripts/aes_gcm/gcm_ref.py:39-55 | eleven round keys for a key of four words and fifteen for one of eight, and the words that each holds |
| Gcm.GhashBytes | scripts/aes_gcm/gcm_ref.py:90-94 | the loop over 16-byte pieces computes the hash of their numbers, a short last piece included |
| Gcm.Gcm | scripts/aes_gcm/gcm_ref.py:101-113 | the loops compute keystream output and tag, or fail on a wrong IV or key length or an overflowing length field |
| Gcm.DecryptEncrypted | scripts/aes_gcm/gcm_ref.py:101-113 | for every key, IV, associated data and text of any length, decrypting the output returns the text with the same tag, and encrypting what was decrypted likewise |
| GcmParts.CounterIs | scripts/aes_gcm/gcm_ref.py:104-108 | counter n is the IV followed by n modulo 2^32 in four bytes, the most significant first |
| GcmParts.OutputIs | scripts/aes_gcm/gcm_ref.py:104-109 | byte i of the output is byte i of the text plus byte i % 16 of the encrypted counter i / 16 + 2 |
| GcmParts.TagIs | scripts/aes_gcm/gcm_ref.py:101-113 | the tag is the hash, under the encryption of sixteen zero bytes, of data and ciphertext padded with zeros and their lengths in bits, plus the encryption of IV, 0, 0, 0, 1 |
| GcmParts.BigDigit | scripts/aes_gcm/gcm_ref.py:111-112 | the bytes of a number, the most significant first, are its digits |
| Gcm.TagIsPolynomial | scripts/aes_gcm/gcm_ref.py:111-112 | the tag is E(J0) plus the polynomial in the hash key over the authenticated blocks |
| Gcm.TagsAgree | scripts/aes_gcm/gcm_ref.py:111-112 | under one key and IV any two messages have the same tag exactly when the hash key is a root of their difference polynomial, the shorter one aligned at the end |
| Gcm.BlocksDetermine | scripts/aes_gcm/gcm_ref.py:97-111 | padding and length block make the authenticated blocks determine associated data and text |
| Gcm.KeystreamRepeats | scripts/aes_gcm/gcm_ref.py:107-109 | two keystream blocks are equal exactly when their numbers agree modulo 2^32, and one equals E(J0) exactly when its counter has come round to 1 |
| FsmExtract.Walker.Walk | scripts/cov/fsm_extract.py:92-141 | the walk adds to the records exactly the arcs and flags of the tree |
| FsmExtract.Walker.WalkAssign | scripts/cov/fsm_extract.py:143-165 | an assignment adds its arcs or its flag |
| FsmPrecise.ArcsExact | scripts/cov/fsm_extract.py:92-165 | an arc is reported if and only if some assignment outside reset gives it: its target is a constant that may be assigned there, and it has a source exactly where a comparison or a case of the variable encloses the place, namely each value that passes the innermost of them |
| FsmPrecise.LookedThrough | scripts/cov/fsm_extract.py:36-71 | conversions are looked through: a constant is a literal and a name is a variable under any of them |
| FsmPrecise.ResetTests | scripts/cov/fsm_extract.py:73-85 | a reset test is a reset, a unary operator of one, or its comparison with 0, each under any conversions |
| FsmPrecise.EqualityNames | scripts/cov/fsm_extract.py:82 | the operators taken for equality are those whose names end so |
| FsmPrecise.FlagExact | scripts/cov/fsm_extract.py:92-165 | a variable is flagged if and only if an assignment outside reset may give it a value that is no constant |
| FsmRuns.ResetTestFalse | scripts/cov/fsm_extract.py:73-85 | a recognised reset test at its active level is false while no reset is active |
| FsmRuns.RunFollows | scripts/cov/fsm_extract.py:92-165 | whatever a statement of the handled kinds schedules for a state variable outside reset is an arc that the walk adds under a context that holds, or is flagged |
| FsmRuns.EveryTransitionReported | scripts/cov/fsm_extract.py:92-165 | every change of a state variable in a cycle outside reset is an arc, from its value or from any state, or the variable is flagged |
| FsmRuns.RunStaysInGraph | scripts/cov/fsm_extract.py:92-165 | with nothing flagged and arcs that lead to enumerators, a whole run stays in the enumerators and follows the graph |
| FsmRuns.ResetTestMatters | scripts/cov/fsm_extract.py:73-85 | a reset signal tested at its inactive level makes the walk miss a transition |
| FsmRuns.ConstantLabelsMatter | scripts/cov/fsm_extract.py:119-129 | so does a case label that is not constant |
| FsmRuns.EnumeratorsMatter | scripts/cov/fsm_extract.py:130-135 | so does a value of the variable outside its enumerators that reaches the default item |
| FsmRuns.ConversionsMatter | scripts/cov/fsm_extract.py:36-51 | so does a conversion that changes the assigned constant |
| Dram.Eng.Tick | scripts/ddr_lite_policy_model.py:25-31 | every timer stays exactly what is left of its period since its event, and a refresh falls due every T_REFI + 1 cycles |
| Dram.Eng.IssueAct | scripts/ddr_lite_policy_model.py:34-40 | an activation, with its three checks passing |
| Dram.Eng.IssuePre | scripts/ddr_lite_policy_model.py:41-43 | a precharge, with its check passing and not within T_WR of the last write of the bank |
| Dram.Eng.Transact | scripts/ddr_lite_policy_model.py:44-67 | a hit adds one access to the log, a closed bank an activation before it, a conflict a precharge before that; the access of a miss starts exactly T_RCD - 1 after its activation and that of a hit at least T_RCD; all fences and the bank protocol are kept and no check fails |
| Dram.FirstMiss | scripts/ddr_lite_policy_model.py:44-67 | the first miss of an engine starts its access T_RCD - 1 after its activation |
| Dram.Eng.ServiceRefresh | scripts/ddr_lite_policy_model.py:68-79 | refreshes exactly when one is due and no bank is in its write recovery or row time; closes every open bank first and leaves T_RFC before anything else |
| Dram.Drive | scripts/ddr_lite_policy_model.py:15-79 | every run of calls ends with no failed check, exact timers, and a log within all fences and the bank protocol |
| Dram.RowChange | scripts/ddr_lite_policy_model.py:44-67 | accesses to two rows of a bank are apart by the precharge and the activation between them, and by the write recovery after a write |
| ApbLayout.Pack | scripts/apb/gen_apb.py:151-181 | the packing loop is the packing function |
| ApbLayout.PackExact | scripts/apb/gen_apb.py:151-181 | the fields of the words are the bits of the ports in order, each once, and do not overlap in a word |
| ApbLayout.Reset | scripts/apb/gen_apb.py:133-137 | the loop ors the fields' reset values |
| ApbLayout.PortsReset | scripts/apb/gen_apb.py:133-181 | every field reads back from its word's reset value its bits of its port's reset value |
| ApbSpec.MakeLayout | scripts/apb/gen_apb.py:184-270 | the loop over the registers with its refusals is the layout function |
| ApbSpec.LayoutValid | scripts/apb/gen_apb.py:184-270 | every specification that is laid out gives a valid layout, in which each stream that can lose a beat has its overflow source |
| ApbSpec.OverflowByName | scripts/apb/gen_apb.py:184-270 | the overflow source is found under the name of its stream |
| ApbSpec.LayoutCovers | scripts/apb/gen_apb.py:184-270 | the fields of all words are the bits of the ports of all registers in order, each once |
| ApbWrapper.Registers.Edge | scripts/apb/gen_apb.py:419-474 | a clock edge takes every register of the emitted wrapper to its next value |
| ApbChecker.DecodersAgree | scripts/apb/gen_apb.py:352 | the decoders of wrapper and checker agree on every access if and only if the layout has fewer than 1024 words |
| ApbChecker.StepAgrees | scripts/apb/gen_apb_tb.py:348-391 | one clock keeps wrapper and checker in agreement, word by word |
| ApbChecker.FullLayoutFails | scripts/apb/gen_apb.py:352 | with 1024 words every access is answered with an error and reads zeros |
| ApbChecker.OutputsAgree | scripts/apb/gen_apb_tb.py:423-478 | in agreeing states PREADY, PRDATA, PSLVERR, the interrupt, the core inputs and the stream handshakes are what the checker expects |
| ApbChecker.RunAgrees | scripts/apb/gen_apb_tb.py:325-478 | in every run from reset of a layout of fewer than 1024 words wrapper and checker agree, and those outputs are as expected |
| ApbAccess.RegisterReads | scripts/apb/gen_apb.py:419-571 | in every run, every bit of a register reads as last written under its byte strobe, or as reset, zero if secret or above the fields, and the core sees the same bits |
| ApbAccess.FixedReads | scripts/apb/gen_apb.py:419-571 | so do interrupt enable and scratch; identifier and flags read as specified |
| ApbAccess.CommandPulses | scripts/apb/gen_apb.py:444-447 | a command pulse lasts exactly the clock after its write, with the written bits |
| ApbAccess.PendingExact | scripts/apb/gen_apb.py:436-524 | an interrupt is pending exactly if it was set in some clock and not cleared by a later write; setting wins over clearing |
| ApbAccess.EventIs | scripts/apb/gen_apb.py:507-524 | an interrupt is set by its port, an accepted beat, a write to a stream that holds a beat, a beat delivered while one is unread, or one delivered into an empty register |
| ApbAccess.StreamStates | scripts/apb/gen_apb.py:448-472 | when a stream register holds a beat, by writes, reads and the handshake pins |
| ApbAccess.StatusReads | scripts/apb/gen_apb.py:536-571 | a read of a status word shows at the place of each field the bits of its port, and zeros above the fields |
| ApbAccess.BeatHolds | scripts/apb/gen_apb.py:464-472 | a captured beat holds at the place of each field the bits that its port had in that clock |
| ApbAccess.InterruptExact | scripts/apb/gen_apb.py:525 | the interrupt line is up exactly while a pending interrupt is enabled |
| ApbAccess.ErrorsExact | scripts/apb/gen_apb.py:352-363 | an access ends in an error exactly if its address is no word, or if it writes less than four bytes of a word of a register port |
| ApbBuses.BusHolds | scripts/apb/gen_apb_tb.py:452-470 | the strobes, indices and data of the core register ports are what the checker asserts, when every index fits its address port |
| ApbBuses.WideIndexFails | scripts/apb/gen_apb.py:365-379 | an index that does not fit its address port breaks the assertion on the first access to its word |
| ApbBuses.BusesHold | scripts/apb/gen_apb_tb.py:452-470 | the assertions on the register ports hold on all clocks if and only if every index fits its address port, which the layout does not ask |
| ApbBuses.NoAssertionFails | scripts/apb/gen_apb_tb.py:325-479 | in every run from reset of a layout of fewer than 1024 words with fitting indices no assertion fails, register ports included |
| ApbBuses.FullSpecFails | scripts/apb/gen_apb.py:184-270 | a specification with 1019 core registers is laid out in 1024 words, and its wrapper answers every access with an error |
| ApbBuses.WideSpecFails | scripts/apb/gen_apb.py:184-270 | a specification with index 2 on a one-bit address port is laid out, and a write gives the core index 0 |
| ApbBuses.ResetHolds | scripts/apb/gen_apb_tb.py:421-479 | in reset the asserted values hold if and only if the clock does not read an ID that is not zero, a readable register with a nonzero reset value, core outputs that are not zero or a core register with a read strobe or nonzero data, and does not write a core register with all lanes |
| ApbBuses.ReadInResetFails | scripts/apb/gen_apb_tb.py:421-479 | a read of the identification word in reset breaks the assertion on the reset values |
| ApbStreams.BeatsAccepted | scripts/apb/gen_apb.py:451-457 | the core accepts the beats that software commits, each once, unchanged and in order; at most the last is still held |
| ApbStreams.BeatPresented | scripts/apb/gen_apb.py:451-457 | without a ready, the core sees valid in exactly the clock after each commit, with the bits that software has written |
| ApbStreams.BeatsRead | scripts/apb/gen_apb.py:464-472 | software reads the captured beats, each once, unchanged and in order; at most the last is still unread |
| ApbStreams.TakenValue | scripts/apb/gen_apb.py:465-471 | a captured beat holds the core's ports of that clock |
| ApbStreams.DropShows | scripts/apb/gen_apb.py:507-524 | a dropped beat shows in an overflow bit of its stream until software clears that bit |
| ApbStreams.NoSilentDrop | scripts/apb/gen_apb.py:507-524 | for every specification that is laid out, a beat lost by any stream shows in the overflow bit of that stream until software clears it |
| ApbStreams.ReadyTakes | scripts/apb/gen_apb.py:502-505 | with a ready towards the core a beat is taken exactly when the wrapper offers ready |

## Left out

- Hash and XOF internals: SHA-3, SHAKE and the streams made of them are parameters.
- Rejection loops: `sign`, `sample_in_ball` and the rejection samplers are proved for every stream on which they finish within the precomputed bytes; no claim is made of how likely that is.
- ML-KEM failure probability: the noise condition is exact, but how often it fails is not part of this model.
- NoiseBound.LightSecretsDecrypt: takes the worst case over the errors, so that hardly any sampled secret meets its bound; Decapsulation.DecryptionCorrect is the exact condition.
- ACVP files, known-answer vectors, vector generators, self-tests, and the tool wrappers for simulation, synthesis and coverage.
- `format_msg` and the prehash variants of ML-DSA: the message is a byte string, as `sign` and `verify` get it.
- Test hooks of the PCS transmitter: forcing a marker in or out, the damaged marker, and raw 257-bit blocks.
- The text of the generated tables, wrapper and checker: hexadecimal packing, SystemVerilog syntax, comments, pin lists.
- The PCS gearbox search, packaging, documentation generators, and everything in `gen_framework.py` but `CAN_top`.
- Can.FrameArrives: one step per bit time; clock division, the input synchroniser, more than one node on the bus and host writes during a frame are not modelled; the acknowledgement is the level that the receiver drives.
- Link.LateJoin: says nothing of a receiver whose very first pair is a marker pair in mid-stream, whose descrambler has no history yet; Link.Resynchronises says what it gets.
- Spdm.Responder.Handle: the request builders are not modelled apart from the certificate request of the fetch loop.
- FsmRuns.EveryTransitionReported: elaboration, the search for clocks and resets in timing controls, and blocking assignments to state variables are not modelled; operators other than equality and logical not have arbitrary values.
- Dram.Eng.ServiceRefresh: no claim that every refresh interval is serviced, since one that falls due during the wait for T_RFC is cleared at the end; the check against the last PREA compares with a value that never changes.
- Dram.Drive: the data store is the set of lines written; payloads are kept by the caller in the source and are not modelled.
- ApbSpec.MakeLayout: register names are taken to be distinct, and the write side of a core register port (strobe, address and data) is given as a whole; names and descriptions of words are left out.
- ApbWrapper.Registers.Edge: pass-through pins and tied inputs are not modelled.
