# Verified model of Pictor's numeric core

Pictor runs low-precision neural networks: it stores weights as packed codes with quantised scales, multiplies them
with tiled, vectorised and threaded kernels, writes images as PNG, and scores text. Most of that code replaces a simple
specification by a packed, blocked or tiled form. This project states the specifications and proves that the forms keep
them, for all inputs.

Files, one module each, in the order they build on each other:

- `Bits`, `BitReader`, `Huffman`, `Inflate`: the DEFLATE decoder of the PNG writer's tests as imperative code, against a
  functional specification of the format. `Deflate` proves the specification exact (`InflateExact`: an if and only if
  over every byte string), `Conformance` that streams decode in one way only and when the decoder agrees with one that
  checks length complements, `Lz77` the round trip with a compressor that may cut its input into fixed and stored blocks
  at will (`InflateCompress`) and closed forms of the tables, and `KnownStreams` what two literal streams inflate to.
- `Fp8`, `Fp8Laws`, `F32Rounding`, `Fp8Blocks`: the scalar FP8 codecs bit for bit on f32 patterns, with every magnitude
  an exact multiple of 2^-149, the rounding of a quotient to f32, and the blocks built from both.
- `Packing`, `Rounding`: the bit planes filled by or-ing, and the rounding steps. `Asymmetric` and `AsymmetricBlocks`
  (Q2_K, Q4_K, Q5_K), `Symmetric` and `SymmetricBlocks` (Q3_K, Q6_K), `SingleScale` and `SingleScaleBlocks` (Q4_0, Q8_0,
  Q8_K), `Ternary` and `TernaryBlocks` (TQ2_0_g128, TQ2_0): error bounds that survive the quantisation of the scales,
  each also in terms of the weights alone, and lossless packing. `ByteLayouts` says which byte holds what, in numbers.
- `Gemm`, `Tiling`: lane and register-tile kernels, then the tiled loop nest. `Interleaving` is a small theory of
  workers confined to their own cells; `Threads` and `ParRows` apply it to the column and the row split.
- `Blocked`, `OneBit`, `Kernels`, `Fused`, `Routes`: the kernels that unpack codes inside the product, and the three
  routes to one matrix.
- `Reorder`, `Layouts`, `Sequences`: the N-dimensional reordering and the attention layouts.
- `Lcs`, `Alignment`, `Meteor`, `Calendar`: the evaluation algorithms.

Conventions. Sums, products and block-scale arithmetic are over exact reals. Rounding a block scale to f16 is a function
parameter `half` about which nothing is assumed unless a contract says so. The quotient of an FP8 block is likewise the
parameter `quotient`, which the error theorems take to be f32 division (`Fp8Blocks.F32Division`), and METEOR's power is
the parameter `powf`. Arrays written in place are arrays here; an output slice of a larger buffer is the buffer with an
offset. Long loop nests are cut into methods, one to a loop. Where the source repeats a loop with one difference (block
size, format, instruction set), the difference is a parameter here.

Where the code and its documentation differ, the code is modelled:

- The inflater calls itself conforming but never compares a stored block's length with its complement
  (`Deflate.ComplementUnchecked`). So it accepts streams that section 3.2.4 of RFC 1951 rules out
  (`Conformance.WrongComplement`), and agrees with a checking decoder exactly where the complements hold
  (`Conformance.AgreesWithChecking`).
- A comment in the E4M3 encoder sends values of at least 2^-10 to a denormal; 2^-10 itself becomes zero
  (`Fp8Laws.Underflow`), as ties to even requires.
- The E5M2 encoder announces rounding to nearest, yet everything above 57344 becomes infinite, where rounding would do
  so from 61440 on (`Fp8Laws.E5M2OverflowExact`). Since a block's scale is its largest weight over 57344, a scale that
  f16 rounds down by more than about one part in 57344 * 512 turns that weight into an infinity
  (`Fp8Blocks.E5M2BlockSurvives`; `Fp8Blocks.OverflowExample` is such a block).
- The 1e-9 guard of Q3_K and Q6_K zeroes sub-blocks of very small weights, which breaks the error bound that otherwise
  holds; `Symmetric.BoundExact` gives the exact condition.
- The header of the product module says it is parallel over input rows; the code splits the weight rows.
- The image route asks for n * (k / 128) blocks but takes fewer, reading the missing weights as zero
  (`Routes.AcceptanceExact`).
- A text scored against itself by METEOR reaches 1 only with a gamma that is not positive (`Meteor.SelfScore`).

## Model

| member | source | states |
|---|---|---|
| BitReading.BitReader.constructor | crates/pictor-image/src/png.rs:214-220 | A reader at position 0 of the bits of the data, least significant bit of each byte first |
| BitReading.BitReader.Bit | crates/pictor-image/src/png.rs:223-232 | Reads the bit at the position and moves on by one; past the end it fails and moves nowhere |
| BitReading.BitReader.Bits | crates/pictor-image/src/png.rs:235-241 | Reads n bits as a little-endian number: result and new position are those of `ReadBits` on the bit stream, whatever byte boundaries are crossed |
| BitReading.BitReader.Align | crates/pictor-image/src/png.rs:244-249 | Moves to the next multiple of eight bits and nowhere if already there |
| Huffman.New | crates/pictor-image/src/png.rs:261-281 | The counting sort builds the table of the length list: the count of every length from 1 to 15, and every coded symbol in the slot given by (length, symbol) |
| Huffman.TableSorted | crates/pictor-image/src/png.rs:269-281 | The table lists exactly the symbols with a nonzero length, each once, in increasing (length, symbol) order |
| Huffman.PrefixFree | crates/pictor-image/src/png.rs:284-300 | At one position of a bit stream at most one symbol's canonical code can be read |
| Huffman.DecodeFinds | crates/pictor-image/src/png.rs:284-300 | If the bits at a position are a symbol's canonical code, decoding yields that symbol and its code length, for every length list with entries up to 15, complete or not |
| Huffman.Decode | crates/pictor-image/src/png.rs:284-300 | On any length list the loop keeps code and index in range, returns the symbol whose canonical code comes next and consumes just that code, or fails when there is none or the bits run out |
| Huffman.KraftCharacterises | crates/pictor-image/src/png.rs:261-281 | Every coded symbol has a canonical code word of its length if and only if the Kraft inequality holds |
| Inflate.InflateRaw | crates/pictor-image/src/png.rs:306-433 | Terminates on every byte string without an index out of range and returns what the format specification `Inflated` gives, errors included |
| Inflate.DecodeBlock | crates/pictor-image/src/png.rs:331-427 | One block of each type against the specification, and the position after it |
| Inflate.DecodeStored | crates/pictor-image/src/png.rs:332-342 | A stored block: align, length, skipped complement, payload, with the same failures on truncation |
| Inflate.DecodeHeader | crates/pictor-image/src/png.rs:360-396 | A dynamic header: the two length lists it stands for, or the failure |
| Inflate.DecodeClLengths | crates/pictor-image/src/png.rs:363-366 | The code-length code's lengths in their permuted order |
| Inflate.ClLengthsAt | crates/pictor-image/src/png.rs:363-366 | Value i of the list lands in slot CL_ORDER[i], every later slot of the order is zero, and no two values share a slot |
| Inflate.DecodeLengths | crates/pictor-image/src/png.rs:368-393 | The run-length coded lengths, with the repeat codes and the overrun check |
| Inflate.DecodeOp | crates/pictor-image/src/png.rs:370-389 | One code-length operation: a length, a repeat of the previous one, or a run of zeros |
| Inflate.DecodeTokens | crates/pictor-image/src/png.rs:397-424 | The literals and matches up to the end-of-block symbol, applied to the output so far |
| Inflate.DecodeMatch | crates/pictor-image/src/png.rs:404-418 | Length and distance of a match from their symbols and extra bits |
| Inflate.CopyMatch | crates/pictor-image/src/png.rs:419-422 | An overlapping copy is the periodic extension of the last `distance` bytes |
| Deflate.NextTokenExact | crates/pictor-image/src/png.rs:397-418 | A token is read at a position if and only if its own code and extra bits stand there |
| Deflate.LengthsComplete | crates/pictor-image/src/png.rs:368-393 | Every well-formed list of code-length operations is read back as the lengths it stands for |
| Deflate.LengthsSound | crates/pictor-image/src/png.rs:368-393 | Whatever lengths are read come from such a list that stands there bit for bit |
| Deflate.HeaderComplete | crates/pictor-image/src/png.rs:360-396 | Every well-formed dynamic header is read back |
| Deflate.HeaderSound | crates/pictor-image/src/png.rs:360-396 | Whatever dynamic header is accepted is a well-formed one that stands there bit for bit |
| Deflate.BlockComplete | crates/pictor-image/src/png.rs:331-427 | Every well-formed block of any type is decoded to its output |
| Deflate.BlockSound | crates/pictor-image/src/png.rs:331-427 | Whatever block is decoded is a well-formed one that stands there |
| Deflate.ComplementUnchecked | crates/pictor-image/src/png.rs:333-342 | Reading a stored block gives the same result whatever its two complement bytes are; for whole streams see the `Conformance` rows |
| Deflate.InflateExact | crates/pictor-image/src/png.rs:306-433 | The inflater returns `out` if and only if the data begin with a well-formed sequence of stored, fixed and dynamic blocks whose output is `out` |
| Conformance.StreamUnique | crates/pictor-image/src/png.rs:306-433 | Unique decodability: at most one sequence of stored, fixed and dynamic blocks, with their tokens, headers, padding and complement bytes, stands at a position of the data |
| Conformance.ConformanceExact | crates/pictor-image/src/png.rs:332-342 | A stream the inflater accepts with output `out` is accepted with that output by a decoder that checks complements if and only if each of its stored blocks holds the complement of its length |
| Conformance.AgreesWithChecking | crates/pictor-image/src/png.rs:332-342 | Over every byte string: the inflater and a checking decoder agree if and only if the complements of the string's blocks hold, should it decode at all |
| Conformance.ComplementsIgnored | crates/pictor-image/src/png.rs:332-342 | Two whole streams that differ in padding and complements only inflate to the same |
| Conformance.WrongComplement | crates/pictor-image/src/png.rs:332-342 | The six bytes 01 01 00 00 00 41 inflate to one byte although a checking decoder accepts nothing |
| Lz77.CopyHasSymbols | crates/pictor-image/src/png.rs:307-321 | Every length from 3 to 258 and every distance from 1 to 32768 has a symbol and extra bits in the base and extra tables |
| Lz77.LengthSteps | crates/pictor-image/src/png.rs:307-310 | The length bases start at 3, each range of base plus 2^extra ends where the next begins, and the last symbol is 258 |
| Lz77.DistanceSteps | crates/pictor-image/src/png.rs:314-317 | The distance bases start at 1 and each range of base plus 2^extra ends where the next begins |
| Lz77.LengthExtra | crates/pictor-image/src/png.rs:311-313 | The widths of the lengths' extra bits: none for the first eight symbols and the last, then one more every four symbols |
| Lz77.DistanceExtra | crates/pictor-image/src/png.rs:318-321 | The widths of the distances' extra bits: none for the first four symbols, then one more every two |
| Lz77.ClOrderClosed | crates/pictor-image/src/png.rs:322-324 | The order of the code-length code in closed form: 16, 17, 18, 0 and then outwards from 8 |
| Lz77.FixedLitCode | crates/pictor-image/src/png.rs:345-356 | The literal codes built from the fixed lengths are those of the table in section 3.2.6 of RFC 1951 |
| Lz77.FixedDistCode | crates/pictor-image/src/png.rs:357-358 | The fixed distance codes are the five-bit numbers of section 3.2.6 of RFC 1951 |
| Lz77.CopyIsPeriodic | crates/pictor-image/src/png.rs:419-422 | The periodic copy equals copying byte after byte from what has been output, overlap included |
| Lz77.InflateCompress | crates/pictor-image/src/png.rs:306-433 | Round trip: any sequence of literals, matches and stored runs, cut into fixed and stored blocks at will and followed by any bytes, inflates to exactly its LZ77 expansion |
| KnownStreams.FixedExample | crates/pictor-image/src/png.rs:306-358 | The six bytes 4b 4c 4a 06 22 00 inflate to abcabc: three literals, a copy of length 3 from distance 3 and the end, in the fixed codes |
| KnownStreams.DynamicExample | crates/pictor-image/src/png.rs:306-427 | Sixteen bytes of a dynamic block whose header uses all three repeat codes inflate to abbbb |
| Fp8.E4M3Correct | crates/pictor-core/src/quant_fp8.rs:47-160 | For every f32 that is finite the code decodes to the nearest E4M3 value, ties to even, and saturates at 448; no in-range input gives a NaN |
| Fp8.E5M2Correct | crates/pictor-core/src/quant_fp8.rs:208-303 | For every finite f32 of magnitude at most 57344 the code decodes to the nearest E5M2 value, ties to even; above that it is infinity |
| Fp8.TieTestExact | crates/pictor-core/src/quant_fp8.rs:135-147 | The 1e-9 tolerance test fires exactly on the true ties of the f32 grid |
| Fp8Laws.SubnormalStepsExact | crates/pictor-core/src/quant_fp8.rs:131-135 | The product and the difference on the subnormal path are f32 numbers, so computing them in f32 rounds nothing |
| Fp8Laws.E4M3Monotone | crates/pictor-core/src/quant_fp8.rs:47-190 | x <= y implies that decode(encode(x)) <= decode(encode(y)) |
| Fp8Laws.E5M2Monotone | crates/pictor-core/src/quant_fp8.rs:208-340 | The same for E5M2 up to its largest value |
| Fp8Laws.EncodeOdd | crates/pictor-core/src/quant_fp8.rs:47-160 | Flipping the sign of the input flips the sign bit of the code, in both formats |
| Fp8Laws.Specials | crates/pictor-core/src/quant_fp8.rs:47-61 | Only NaN becomes a NaN; an infinity becomes 448 of its sign in E4M3 and an infinity of its sign in E5M2 |
| Fp8Laws.Landmarks | crates/pictor-core/src/quant_fp8.rs:167-200 | The codes of 1, of the largest finite value (448 and 57344) and of the smallest step (2^-9 and 2^-16) |
| Fp8Laws.E4M3RoundTrip | crates/pictor-core/src/quant_fp8.rs:47-190 | Encoding what a byte decodes to gives the byte back, for every byte that is not a NaN |
| Fp8Laws.E5M2RoundTrip | crates/pictor-core/src/quant_fp8.rs:208-340 | The same for every finite E5M2 byte |
| Fp8Laws.Underflow | crates/pictor-core/src/quant_fp8.rs:117-157 | An input encodes to zero if and only if its magnitude is at most 2^-10 (E4M3) or, below the overflow threshold, 2^-17 (E5M2): the halfway point itself goes to zero |
| Fp8Laws.E5M2OverflowExact | crates/pictor-core/src/quant_fp8.rs:229-231 | The code is the IEEE 754 rounding with its overflow threshold if and only if the magnitude is not strictly between 57344 and 61440 |
| Fp8Laws.E4M3RealError | crates/pictor-core/src/quant_fp8.rs:47-190 | Rounding error at most abs(w)/16 + 2^-10, plus the excess over 448 |
| Fp8Laws.E5M2RealError | crates/pictor-core/src/quant_fp8.rs:208-340 | Rounding error at most abs(w)/8 + 2^-17 |
| Fp8Laws.E4M3BlockError | crates/pictor-core/src/quant_fp8.rs:423-433 | The error of a weight of a block, for any rounding of the quotient by the stored scale |
| Fp8Laws.E5M2BlockError | crates/pictor-core/src/quant_fp8.rs:552-561 | The same for E5M2 up to the overflow threshold |
| Fp8Blocks.QuantizeBlock | crates/pictor-core/src/quant_fp8.rs:400-437 | A block of either format: the stored scale and the code of each quotient; a zero chunk and a scale stored as zero give zero codes |
| Fp8Blocks.Quantize | crates/pictor-core/src/quant_fp8.rs:389-438 | A tensor of whole blocks; any other length is refused |
| Fp8Blocks.Dequant | crates/pictor-core/src/quant_fp8.rs:365-384 | The scale times each decoded code, nothing beyond, and a short output refused untouched |
| Fp8Blocks.ZeroScale | crates/pictor-core/src/quant_fp8.rs:406-437 | With a stored scale of zero every weight reads back as zero |
| F32Rounding.RoundingExists | crates/pictor-core/src/quant_fp8.rs:426-431 | Every real number has a nearest-even f32, so the hypothesis on the division below can be met |
| F32Rounding.RoundingClose | crates/pictor-core/src/quant_fp8.rs:426-431 | It is within a relative 2^-23 and 10^-12 of the number |
| F32Rounding.E4M3Quotient | crates/pictor-core/src/quant_fp8.rs:425-433 | A quotient rounded first to f32 and then to E4M3 keeps the bound of rounding it once: abs(t)/16 + 2^-10 + max(0, abs(t) - 448) |
| F32Rounding.E5M2Threshold | crates/pictor-core/src/quant_fp8.rs:554-561 | The f32 nearest to t has magnitude at most 57344 if and only if abs(t) <= 57344 + 1/512: the midpoint goes down |
| F32Rounding.E5M2Quotient | crates/pictor-core/src/quant_fp8.rs:554-561 | Up to there, rounding twice stays within abs(t)/8 + 2^-17 |
| F32Rounding.E5M2Overflows | crates/pictor-core/src/quant_fp8.rs:554-561 | Beyond it the code is an infinity of the quotient's sign |
| Fp8Blocks.E4M3WeightError | crates/pictor-core/src/quant_fp8.rs:420-435 | With f32 division, abs(v - v') <= abs(v)/16 + s/1024 + max(0, abs(v) - 448 s) for every weight and every positive stored scale s |
| Fp8Blocks.E4M3HalfScale | crates/pictor-core/src/quant_fp8.rs:420-435 | If f16 rounds the scale m/448 within 2^-11, abs(v - v') <= abs(v)/16 + m/2000, with m the largest magnitude of the block |
| Fp8Blocks.E5M2WeightExact | crates/pictor-core/src/quant_fp8.rs:549-561 | With f32 division, a weight reads back as a number if and only if abs(v) <= (57344 + 1/512) s, and is then within abs(v)/8 + s/131072; otherwise it reads back as infinity of its sign |
| Fp8Blocks.E5M2HalfScale | crates/pictor-core/src/quant_fp8.rs:549-561 | Likewise abs(v - v') <= abs(v)/8 + m/(7.5 10^9) for the weights that read back as numbers |
| Fp8Blocks.E5M2BlockSurvives | crates/pictor-core/src/quant_fp8.rs:549-561 | All weights of a block read back as numbers if and only if its largest magnitude m is at most (57344 + 1/512) half(m/57344): rounding to f16 lowered the scale by hardly anything |
| Fp8Blocks.OverflowExample | crates/pictor-core/src/quant_fp8.rs:540-561 | The block of 57358 and 31 zeros: f16 rounds its scale to 1, and its only nonzero weight reads back as infinity |
| Fp8Blocks.E4M3TensorError | crates/pictor-core/src/quant_fp8.rs:365-438 | Quantised and read back, every weight of an E4M3 tensor is within that bound |
| Fp8Blocks.E5M2TensorExact | crates/pictor-core/src/quant_fp8.rs:494-565 | Which weights of an E5M2 tensor come back as numbers, and how close |
| Fp8Blocks.E4M3TensorHalf | crates/pictor-core/src/quant_fp8.rs:365-438 | The closed E4M3 bound at every index of a tensor |
| Fp8Blocks.E5M2TensorHalf | crates/pictor-core/src/quant_fp8.rs:494-565 | The closed E5M2 bound at every index of a tensor |
| Packing.PutSetsOneLane | crates/pictor-core/src/quant_k.rs:182-198 | Or-ing a code into a clear lane of a 1-, 2- or 4-bit plane stores it there and disturbs no other lane, in this byte or another |
| Packing.PutLane | crates/pictor-core/src/quant_k_ext.rs:266-296 | One step of a packing loop: after it the lanes up to i hold the codes and the rest are still clear |
| Packing.EncodeScales | crates/pictor-core/src/quant_k.rs:554-580 | The 12 packed bytes of eight 6-bit scales and eight 6-bit mins |
| Packing.DecodeScales | crates/pictor-core/src/quant_k.rs:521-550 | The scales and mins held in 12 bytes |
| Packing.UnpackPacked | crates/pictor-core/src/quant_k_ext.rs:37-93 | Unpacking the packed scales and mins gives them back |
| Packing.PackUnpacked | crates/pictor-core/src/quant_k_ext.rs:37-93 | Packing the unpacked fields of any 12 bytes gives the bytes back: with the other direction, a bijection of 96 bits |
| ByteLayouts.PackedBytes | crates/pictor-core/src/quant_k_ext.rs:66-93 | Each of the twelve packed bytes as a number: low nibbles of two scales or two mins, then bits 4 and 5 of four at a time |
| ByteLayouts.UnpackedValues | crates/pictor-core/src/quant_k_ext.rs:37-62 | Each unpacked scale and min as a number: a nibble and a two-bit digit of the twelve bytes |
| ByteLayouts.LaneDigit | crates/pictor-core/src/quant_k.rs:182-198 | A code of a 1-, 2- or 4-bit plane is the number in the w bits from bit w i of its bytes |
| ByteLayouts.Q2KWeight | crates/pictor-core/src/quant_k.rs:79-98 | The weight a Q2_K block holds, from its bytes as numbers |
| ByteLayouts.Q4KWeight | crates/pictor-core/src/quant_k.rs:597-619 | The same for Q4_K |
| ByteLayouts.Q5KWeight | crates/pictor-core/src/quant_k_ext.rs:143-173 | The same for Q5_K, the code from a nibble and a bit |
| ByteLayouts.Q3KWeight | crates/pictor-core/src/quant_k.rs:299-324 | The same for Q3_K: (nibble - 8) times (two bits + 4 bit - 4) |
| ByteLayouts.Q6KWeight | crates/pictor-core/src/quant_k_ext.rs:388-414 | The same for Q6_K, the code from a nibble and two bits, less 32 |
| ByteLayouts.Q4_0Weight | crates/pictor-core/src/quant_std.rs:61-84 | The same for Q4_0: nibble less 8 |
| ByteLayouts.TernaryWeight | crates/pictor-core/src/quant_ternary.rs:77-99 | The same for the ternary formats: two-bit digits 0, 1, 2 stand for -1, 0, 1 and 3 for 0 |
| ByteLayouts.TernarySizes | crates/pictor-core/src/quant_ternary.rs:104-157 | A ternary block is 32 or 64 bytes of codes |
| ByteLayouts.BitWeight | crates/pictor-kernels/src/dequant.rs:15-37 | The same for the 1-bit format: a set bit is the scale, a clear one its negative |
| Asymmetric.WeightError | crates/pictor-core/src/quant_k.rs:122-198 | Over exact reals, for any chunk, with L levels above zero: abs(w - w') <= max(d sc / 2, (L d + dmin) / 2), though the sub-block scales and mins are themselves rounded and clamped; one lemma for Q2_K, Q4_K and Q5_K |
| Asymmetric.PeakError | crates/pictor-core/src/quant_k.rs:122-198 | So abs(w - w') <= m / L for every weight, with m the largest magnitude of the chunk: the bound in the inputs alone |
| Asymmetric.RangeTight | crates/pictor-core/src/quant_k.rs:122-158 | The range a sub-block is quantised over is no wider than it need be: each end is zero or one of its weights |
| Asymmetric.FullFactors | crates/pictor-core/src/quant_k.rs:159-180 | Some sub-block has the largest scale factor and some the largest min factor, 15 (Q2_K) or 63: the factors are used in full |
| Asymmetric.StoredWeightError | crates/pictor-core/src/quant_k.rs:122-198 | The same with d and dmin replaced by any stored values, plus what the replacement costs |
| Asymmetric.HalfStorage | crates/pictor-core/src/quant_k.rs:122-198 | If both are rounded to f16 within 2^-11, the replacement costs at most (d sc q + dmin mn)/2048 |
| Asymmetric.SubBlockFactors | crates/pictor-core/src/quant_k.rs:122-165 | The super-block units d and dmin and the codes of each sub-block's scale and min |
| AsymmetricBlocks.QuantizeBlockQ2K | crates/pictor-core/src/quant_k.rs:119-205 | One Q2_K super-block from 256 weights |
| AsymmetricBlocks.QuantizeQ2K | crates/pictor-core/src/quant_k.rs:108-209 | A tensor of whole super-blocks; any other length refused |
| AsymmetricBlocks.DequantQ2K | crates/pictor-core/src/quant_k.rs:68-103 | Every weight read from its codes, nothing beyond, short outputs refused |
| AsymmetricBlocks.Q2KRoundTrip | crates/pictor-core/src/quant_k.rs:68-209 | Quantised and read back, every weight of a tensor is within the bound plus the cost of storing d and dmin, which is (d sc q + dmin mn)/2048 with f16 rounding; altogether at most m/3 + 3 m/2048 |
| AsymmetricBlocks.QuantizeBlockQ4K | crates/pictor-core/src/quant_k.rs:640-722 | One Q4_K super-block, scales packed into 12 bytes |
| AsymmetricBlocks.QuantizeQ4K | crates/pictor-core/src/quant_k.rs:629-725 | A tensor of whole super-blocks |
| AsymmetricBlocks.DequantQ4K | crates/pictor-core/src/quant_k.rs:586-624 | Every weight read from nibbles and unpacked scales |
| AsymmetricBlocks.Q4KRoundTrip | crates/pictor-core/src/quant_k.rs:586-725 | The tensor-wide error bound for Q4_K in the same forms, altogether m/15 + 3 m/2048 |
| AsymmetricBlocks.QuantizeBlockQ5K | crates/pictor-core/src/quant_k_ext.rs:210-305 | One Q5_K super-block, codes split into nibble and fifth-bit planes |
| AsymmetricBlocks.QuantizeQ5K | crates/pictor-core/src/quant_k_ext.rs:199-308 | A tensor of whole super-blocks |
| AsymmetricBlocks.DequantQ5K | crates/pictor-core/src/quant_k_ext.rs:132-178 | Every weight read from the joined planes |
| AsymmetricBlocks.Q5KRoundTrip | crates/pictor-core/src/quant_k_ext.rs:132-308 | The tensor-wide error bound for Q5_K in the same forms, altogether m/31 + 3 m/2048 |
| Symmetric.WeightError | crates/pictor-core/src/quant_k.rs:361-433 | If the effective scale is zero or above the 1e-9 guard, abs(w - w') <= max(d sc / 2, top d / 2) with top = 3 (Q3_K) or 31 (Q6_K), signed clamps included |
| Symmetric.FactorClose | crates/pictor-core/src/quant_k_ext.rs:453-500 | The signed sub-block scale never leaves 0..7 (Q3_K) or 0..127 (Q6_K), and stands for the sub-block's largest magnitude to within half a unit |
| Symmetric.GuardBreaksBound | crates/pictor-core/src/quant_k.rs:398-420 | When the guard suppresses a nonzero effective scale, and the largest magnitude is not exactly the bound, some weight of the sub-block reads back as zero and misses the bound |
| Symmetric.BoundExact | crates/pictor-core/src/quant_k_ext.rs:453-515 | The bound holds for every weight of a chunk if and only if in each sub-block the sub-block scale is zero, or the effective scale passes the guard, or the largest magnitude is exactly the bound |
| Symmetric.PeakError | crates/pictor-core/src/quant_k.rs:361-433 | For every input abs(w - w') <= m / (2 top), with m the largest magnitude of the chunk, and top 10^-9 more where the guard acts |
| Symmetric.FullFactor | crates/pictor-core/src/quant_k.rs:380-392 | The scale is m/21 (Q3_K) or m/3937 (Q6_K), and the sub-block that holds m has the largest factor, 7 or 127 |
| SymmetricBlocks.HalfStorage | crates/pictor-core/src/quant_k.rs:380-433 | If d is rounded to f16 within 2^-11, storing it costs at most a 2048th of the reconstructed weight |
| SymmetricBlocks.QuantizeBlockQ3K | crates/pictor-core/src/quant_k.rs:357-440 | One Q3_K super-block, codes split into 2-bit and third-bit planes, scales in nibbles |
| SymmetricBlocks.QuantizeQ3K | crates/pictor-core/src/quant_k.rs:347-444 | A tensor of whole super-blocks |
| SymmetricBlocks.DequantQ3K | crates/pictor-core/src/quant_k.rs:288-329 | Every weight read from the joined planes |
| SymmetricBlocks.Q3KRoundTrip | crates/pictor-core/src/quant_k.rs:288-444 | The tensor-wide error bound for Q3_K, under the guard condition: for any stored scale, and closed for one rounded to f16 |
| SymmetricBlocks.Q3KPeakError | crates/pictor-core/src/quant_k.rs:288-444 | Tensor-wide and for every input: quantised with an f16 scale and read back, within m/6 + m/1536, and 3 10^-9 more where the guard acts |
| SymmetricBlocks.QuantizeBlockQ6K | crates/pictor-core/src/quant_k_ext.rs:450-522 | One Q6_K super-block, codes split into nibble and two-bit planes |
| SymmetricBlocks.QuantizeQ6K | crates/pictor-core/src/quant_k_ext.rs:439-524 | A tensor of whole super-blocks |
| SymmetricBlocks.DequantQ6K | crates/pictor-core/src/quant_k_ext.rs:377-419 | Every weight read from the joined planes |
| SymmetricBlocks.Q6KRoundTrip | crates/pictor-core/src/quant_k_ext.rs:377-524 | The tensor-wide error bound for Q6_K, under the guard condition, in the same two forms |
| SymmetricBlocks.Q6KPeakError | crates/pictor-core/src/quant_k_ext.rs:377-524 | The same for Q6_K: m/62 + m/1536, and 31 10^-9 more where the guard acts |
| SymmetricBlocks.TinyChunk | crates/pictor-core/src/quant_k.rs:398-420 | A chunk of equal weights v > 0 fails that condition if and only if v is at most 3 (Q3_K) or 31 (Q6_K) times the guard, which is 10^-9 rounded to f32 |
| SingleScale.Q4_0WeightExact | crates/pictor-core/src/quant_std.rs:137-143 | For any positive stored scale s a weight is within s/2 if and only if it lies between -8.5 s and 7.5 s |
| SingleScale.Int8WeightExact | crates/pictor-core/src/quant_std.rs:290-294 | For any positive stored scale s a weight is within s/2 if and only if it lies between -127.5 s and 127.5 s |
| SingleScale.QuantizeBlockQ4_0 | crates/pictor-core/src/quant_std.rs:107-150 | A Q4_0 block: stored scale, nibbles quantised against it, 0x88 for a zero chunk |
| SingleScale.QuantizeBlockQ8_0 | crates/pictor-core/src/quant_std.rs:265-300 | A Q8_0 block: stored scale and codes quantised against it |
| SingleScale.Q4_0Error | crates/pictor-core/src/quant_std.rs:107-150 | The if-and-only-if above for every weight of a block |
| SingleScale.Q8_0Error | crates/pictor-core/src/quant_std.rs:265-300 | The if-and-only-if above for every weight of a block |
| SingleScale.Q4_0HalfScale | crates/pictor-core/src/quant_std.rs:125-143 | An f16 scale, with its relative error of 2^-11, always meets the condition: every weight is within s/2, which is at most m/13.99 for the largest magnitude m |
| SingleScale.Q8_0HalfScale | crates/pictor-core/src/quant_std.rs:278-294 | The same for Q8_0, with m/253.8 |
| Rounding.RoundExact | crates/pictor-core/src/quant_std.rs:290-294 | The integer an f32 is rounded to is the only one within one half of it, and of two equally near the one further from zero |
| SingleScale.QuantizeBlockQ8K | crates/pictor-core/src/quant_k.rs:851-880 | Every weight within d/2, and group sums that are exact: the clamp to 16 bits never acts |
| SingleScaleBlocks.QuantizeQ4_0 | crates/pictor-core/src/quant_std.rs:92-150 | A tensor of whole blocks; any other length refused |
| SingleScaleBlocks.DequantQ4_0 | crates/pictor-core/src/quant_std.rs:61-84 | Even weights from low nibbles, odd ones from high nibbles; short outputs refused untouched |
| SingleScaleBlocks.QuantizeQ8_0 | crates/pictor-core/src/quant_std.rs:250-302 | A tensor of whole blocks |
| SingleScaleBlocks.DequantQ8_0 | crates/pictor-core/src/quant_std.rs:224-243 | Every weight of every block |
| SingleScaleBlocks.Q4_0TensorError | crates/pictor-core/src/quant_std.rs:61-150 | Quantised and read back, every weight of a Q4_0 tensor is within half its block's stored scale, if that is rounded to f16 |
| SingleScaleBlocks.Q8_0TensorError | crates/pictor-core/src/quant_std.rs:224-302 | The same for Q8_0 |
| Ternary.QuantizeBlock | crates/pictor-core/src/quant_ternary.rs:117-155 | A ternary block: the largest magnitude as scale, a code per weight, 0x55 and scale zero for a zero chunk |
| Ternary.NearestLevel | crates/pictor-core/src/quant_ternary.rs:137-145 | Each weight gets the nearest of -m, 0 and m, so is within m/2 |
| Ternary.LevelExact | crates/pictor-core/src/quant_ternary.rs:137-145 | A weight reads as a nonzero level if and only if its magnitude is at least m/2: the half itself goes outwards |
| Ternary.TernaryError | crates/pictor-core/src/quant_ternary.rs:87-155 | A weight read back is within m/2 plus the rounding of the scale |
| Ternary.RequantizeExact | crates/pictor-core/src/quant_ternary.rs:87-155 | quantize(dequant(b)) == b if and only if b has no reserved code and its scale is positive when some weight is nonzero and zero when none is |
| TernaryBlocks.Quantize | crates/pictor-core/src/quant_ternary.rs:104-157 | A tensor of whole blocks of 128 or 256; any other length refused |
| TernaryBlocks.Dequant | crates/pictor-core/src/quant_ternary.rs:77-99 | The scale times each level, over a buffer that may be longer; a shorter one refused untouched |
| TernaryBlocks.TensorError | crates/pictor-core/src/quant_ternary.rs:77-157 | The error bound for every weight of a tensor |
| TernaryBlocks.RequantizeAllExact | crates/pictor-core/src/quant_ternary.rs:77-157 | Over any number of blocks, quantising the dequantised tensor gives the blocks back if and only if each is canonical |
| Gemm.DotCommutes | crates/pictor-image/src/gemm.rs:293-299 | The dot product does not depend on the order of its operands |
| Gemm.DotLinear | crates/pictor-image/src/gemm.rs:293-299 | It is linear |
| Gemm.DotUnit | crates/pictor-image/src/gemm.rs:293-299 | With a unit vector it is one element; together with linearity this determines it |
| Gemm.IdentityWeights | crates/pictor-image/src/gemm.rs:15-23 | Multiplying by the identity returns the input, element by element |
| Gemm.FmaTotal | crates/pictor-image/src/gemm.rs:316-324 | A lane-wise multiply-add of w elements adds exactly their part of the dot product to the total of the lanes |
| Gemm.Dot1Scalar | crates/pictor-image/src/gemm.rs:293-299 | The plain dot product |
| Gemm.Dot1Avx2 | crates/pictor-image/src/gemm.rs:308-333 | Two 8-lane accumulators, horizontal sum and tail give the dot product for every length |
| Gemm.Dot1Neon | crates/pictor-image/src/gemm.rs:464-481 | One 4-lane accumulator, pairwise sum and tail give the dot product |
| Gemm.Dot4Scalar | crates/pictor-image/src/gemm.rs:379-399 | Four dot products at once |
| Gemm.Dot4Neon | crates/pictor-image/src/gemm.rs:403-460 | Four accumulators, sixteen elements to a step, and the tail give the four dot products |
| Gemm.Micro4x4Scalar | crates/pictor-image/src/gemm.rs:159-174 | The sixteen dot products of four rows and four columns |
| Gemm.Micro4x4Neon | crates/pictor-image/src/gemm.rs:180-238 | Sixteen accumulators, horizontal sums and tail give the sixteen dot products |
| Gemm.Axpy | crates/pictor-image/src/gemm.rs:338-375 | o + w v on the first n elements by either route, the others unchanged |
| Tiling.ApplyAt | crates/pictor-image/src/gemm.rs:94-137 | What a run of cell writes leaves in a cell: its value in the product if it was written, else what was there |
| Tiling.RegionFills | crates/pictor-image/src/gemm.rs:84-93 | A run that writes exactly the cells of some columns computes those columns and leaves every other cell alone |
| Tiling.StoreQuad | crates/pictor-image/src/gemm.rs:121-125 | Four neighbouring cells of one row |
| Tiling.QuadColumns | crates/pictor-image/src/gemm.rs:97-129 | Four columns over all rows: 4 x 4 tiles, then single rows |
| Tiling.SingleColumn | crates/pictor-image/src/gemm.rs:131-137 | A remaining column, one dot product to a row |
| Tiling.GemmNcols | crates/pictor-image/src/gemm.rs:84-138 | For all m, n, k and every remainder, exactly the columns [col_start, col_end) become those of the product; also the run of cell writes that did it |
| Threads.BlocksPartition | crates/pictor-image/src/gemm.rs:41-49 | Blocks of any positive size are disjoint and cover the range: each item lies in just one |
| Threads.EnoughThreads | crates/pictor-image/src/gemm.rs:41-45 | Blocks of ceil(n / threads) are never more than the threads |
| Threads.GemmAbt | crates/pictor-image/src/gemm.rs:24-66 | The whole product for every number of threads, and the workers' programs: disjoint, covering every cell |
| Threads.GemmBlocks | crates/pictor-image/src/gemm.rs:41-65 | The loop that hands out the column blocks |
| Interleaving.Confined | crates/pictor-image/src/gemm.rs:43-65 | At every point of every run, a worker's cells hold what its own steps alone would have left there |
| Interleaving.ScheduleIrrelevant | crates/pictor-image/src/gemm.rs:43-65 | Two interleavings with the same number of steps for each worker end in the same memory |
| Threads.WritersLocal | crates/pictor-image/src/gemm.rs:57-61 | The column workers touch only their own cells, which is what the shared raw pointer relies on |
| Threads.AnyPoint | crates/pictor-image/src/gemm.rs:43-65 | Safety over every run: at every point every cell holds its initial or its final value, the latter once its worker has passed it |
| Threads.AnyInterleaving | crates/pictor-image/src/gemm.rs:43-65 | Whatever the interleaving, the end is the product |
| ParRows.ParallelRows | crates/pictor-image/src/math.rs:95-127 | Every row is computed exactly once from its own contents, for every number of threads |
| ParRows.ChunkRows | crates/pictor-image/src/math.rs:111-118 | A chunk is a whole number of rows: a full share, or all that are left |
| ParRows.RowWorkersLocal | crates/pictor-image/src/math.rs:113-125 | The row workers read and write only their own rows |
| ParRows.AnyRowInterleaving | crates/pictor-image/src/math.rs:113-125 | Whatever the interleaving, every row ends as computed from its initial contents |
| Blocked.ScaleOut | crates/pictor-kernels/src/gemv_ternary.rs:86-100 | Multiplying the scale in once per block instead of once per weight changes nothing |
| Kernels.TernaryRow | crates/pictor-kernels/src/gemv_ternary.rs:84-101 | One fused output is the dot product with the dequantised row |
| Kernels.BitRow | crates/pictor-kernels/src/gemv.rs:60-83 | The same for the 1-bit kernels |
| Kernels.RowIsBlocks | crates/pictor-kernels/src/gemv_ternary.rs:83-88 | Row i of the dense weight matrix is made of blocks i k/128 and on |
| Fused.GemvTernary | crates/pictor-kernels/src/gemv_ternary.rs:48-105 | The refusals in their order, and otherwise the matrix-vector product in the first rows of the output and nothing else changed; block size 128 or 256 |
| Fused.GemmTernary | crates/pictor-kernels/src/gemm_ternary.rs:35-69 | The refusals, blocks counted only if there is a row, and otherwise the matrix product with the dequantised weights |
| Fused.GemvBits | crates/pictor-kernels/src/gemv.rs:25-87 | The same for one vector and 1-bit weights |
| Fused.GemmBits | crates/pictor-kernels/src/gemm.rs:19-87 | The same for a batch and 1-bit weights, blocks always counted |
| Fused.BatchNext | crates/pictor-kernels/src/gemm_ternary.rs:62-66 | One more row of a batch, the rows before it kept |
| Routes.DequantTernary | crates/pictor-kernels/src/dequant_ternary.rs:42-64 | The kernels' own dequantisation is that of the codec, byte by byte and lane by lane |
| Routes.DequantBits | crates/pictor-kernels/src/dequant.rs:15-37 | The 1-bit tensor |
| Routes.DenseMatmul | crates/pictor-image/src/math.rs:51-90 | Refuses wrong lengths, otherwise the product |
| Routes.TernaryMatmul | crates/pictor-image/src/math.rs:137-195 | Refuses wrong shapes and surplus blocks, otherwise the product with the dequantised weights, missing ones read as zero |
| Routes.AcceptanceExact | crates/pictor-image/src/math.rs:144-193 | For a nonempty batch the fused kernel accepts at least, and the image route at most, as many blocks as the shape needs: both accept exactly that many |
| Routes.ThreeRoutes | crates/pictor-image/src/math.rs:24-39 | The fused product, the dense product of the dequantised tensor and the image route give one matrix, for all sizes |
| Routes.BitRoutes | crates/pictor-kernels/src/gemm.rs:19-87 | The fused 1-bit product, one matrix-vector product per row and the dense product give one matrix |
| Routes.ProductUnique | crates/pictor-image/src/gemm.rs:15-23 | A dense product is determined by its operands, cell by cell |
| Reorder.DigitsPlace | crates/pictor-image/src/pipeline.rs:248-256 | The digits peeled off a row-major position are in range and lead back to it, for any rank |
| Reorder.RowMajorDigits | crates/pictor-image/src/pipeline.rs:248-256 | Every multi-index has its own row-major position |
| Reorder.ColumnMajorDigits | crates/pictor-image/src/pipeline.rs:243-246 | Every multi-index has its own column-major position |
| Reorder.Strides | crates/pictor-image/src/pipeline.rs:243-246 | The column-major strides are the products of the leading dimensions |
| Reorder.Offset | crates/pictor-image/src/pipeline.rs:249-256 | The loop computes the column-major offset of the element at a row-major position |
| Reorder.SourceBijective | crates/pictor-image/src/pipeline.rs:240-260 | The map of positions is a bijection, with its inverse |
| Reorder.FortranToC | crates/pictor-image/src/pipeline.rs:240-260 | The output at every position is the source at its column-major offset; a zero dimension gives an empty array |
| Reorder.ReorderedElement | crates/pictor-image/src/pipeline.rs:240-260 | For every multi-index the output's row-major element is the source's column-major element |
| Reorder.TwoDimensions | crates/pictor-image/src/pipeline.rs:240-260 | In two dimensions the reordering is the transposition: position r b + c comes from r + a c |
| Reorder.ReorderIsPermutation | crates/pictor-image/src/pipeline.rs:240-260 | The output holds the source's elements, each as often |
| Layouts.TransposeRows | crates/pictor-image/src/math.rs:523-535 | `to_heads`, and with the sizes exchanged the last loop of `joint_attention`: stretches of equal width transposed |
| Layouts.TransposedElement | crates/pictor-image/src/math.rs:523-535 | Element by element: what stood at (t b + h) w + j stands at (h a + t) w + j |
| Layouts.TransposeTwice | crates/pictor-image/src/math.rs:509-535 | The two undo each other |
| Layouts.LatentSeqToPackedNchw | crates/pictor-image/src/pipeline.rs:294-324 | Wrong shapes refused, otherwise the transposition from sequence to planes |
| Lcs.LcsLength | crates/pictor-eval/src/rouge.rs:206-227 | The table computes the recurrence for every pair of prefixes |
| Lcs.NoneLonger | crates/pictor-eval/src/rouge.rs:206-227 | No common subsequence is longer |
| Lcs.LengthIsMaximum | crates/pictor-eval/src/rouge.rs:206-227 | The length is the maximum over all common subsequences, and one attains it |
| Lcs.Symmetric | crates/pictor-eval/src/rouge.rs:206-227 | Exchanging the sequences changes nothing |
| Lcs.AtMostEither | crates/pictor-eval/src/rouge.rs:206-227 | At most the length of either sequence |
| Alignment.AlignTokens | crates/pictor-eval/src/meteor.rs:163-177 | The loop computes the greedy alignment: each candidate token to the first free equal reference token |
| Alignment.AlignedIsMatching | crates/pictor-eval/src/meteor.rs:163-177 | No position is used twice and only equal tokens are matched |
| Alignment.MatchingBound | crates/pictor-eval/src/meteor.rs:163-177 | No matching of any kind is larger than the multiset intersection |
| Alignment.GreedyOptimal | crates/pictor-eval/src/meteor.rs:163-177 | The greedy alignment has exactly the size of the multiset intersection, so it is a largest matching |
| Alignment.AlignedWithSelf | crates/pictor-eval/src/meteor.rs:163-177 | A sequence is aligned with itself position by position |
| Alignment.CommonMultiset | crates/pictor-eval/src/qa.rs:133-148 | The counting map yields the size of the multiset intersection, so the same number |
| Meteor.CountChunks | crates/pictor-eval/src/meteor.rs:184-200 | The chunks of the alignment in candidate order |
| Meteor.SortIdle | crates/pictor-eval/src/meteor.rs:188-189 | The sort leaves an alignment as it is |
| Meteor.ChunksLeast | crates/pictor-eval/src/meteor.rs:179-200 | Any division into runs that are consecutive on both sides has at least that many runs |
| Meteor.ChunksAttained | crates/pictor-eval/src/meteor.rs:179-200 | And some division has exactly that many |
| Meteor.ChunksBounds | crates/pictor-eval/src/meteor.rs:184-200 | Between one and the number of matches |
| Meteor.FMeanIs | crates/pictor-eval/src/meteor.rs:103-107 | The weighted mean of precision and recall in whole numbers: matches / (alpha reference + (1 - alpha) candidate) |
| Meteor.MeteorTokens | crates/pictor-eval/src/meteor.rs:68-121 | The score in all its cases, for every alpha, gamma and beta, in closed form in the numbers of matches, chunks and tokens |
| Meteor.ClampExact | crates/pictor-eval/src/meteor.rs:103-114 | Over exact reals, with a penalty that is not negative, the clamp leaves the score alone if and only if the penalty is at most 1 |
| Meteor.MeteorInRange | crates/pictor-eval/src/meteor.rs:68-121 | The score of any two token sequences is in [0, 1]; with weights that are not negative the clamp acts if and only if the penalty is above 1, which it never is for gamma at most 1 and beta not negative |
| Meteor.SelfScore | crates/pictor-eval/src/meteor.rs:68-121 | A sequence of n tokens scored against itself gets 1 - gamma (1/n)^beta, clamped, and so 1 if and only if gamma is not positive |
| Meteor.F1Closed | crates/pictor-eval/src/qa.rs:81-87 | F1 is twice the common tokens over all tokens |
| Meteor.F1Range | crates/pictor-eval/src/qa.rs:68-88 | F1 is in [0, 1], and 1 if and only if both sides hold the same tokens equally often |
| Calendar.UnixSecsToDatetime | crates/pictor-eval/src/report.rs:172-219 | A valid Gregorian date and time that is exactly that many seconds from the epoch |
| Calendar.FindYear | crates/pictor-eval/src/report.rs:182-191 | The loop over the years ends in the year that holds the day |
| Calendar.FindMonth | crates/pictor-eval/src/report.rs:193-216 | The loop over the months ends at one of the twelve, with a day that month has |
| Calendar.YearStartClosed | crates/pictor-eval/src/report.rs:180-191 | Counting off years one by one agrees with the closed form of the Gregorian leap rule |
| Calendar.MonthStartClosed | crates/pictor-eval/src/report.rs:193-207 | Counting off months one by one agrees with the closed form (367 m - 362)/12, less one or two days after February |
| Calendar.SecondsClosed | crates/pictor-eval/src/report.rs:172-219 | The second count of any date and time in closed form |
| Calendar.Order | crates/pictor-eval/src/report.rs:172-219 | Dates and times compare as the seconds they stand for, so the decomposition is one to one and keeps the order |

## Left out

- f32 rounding inside sums, products, block-scale divisions and the METEOR and F1 scores: these are over exact reals, so
  the routes are shown to agree as sums, not as rounded sums. The scalar FP8 codecs are bit exact, and the division of a
  weight by an FP8 block's scale is rounded to f32.
- f16 itself, with its overflow and underflow: the parameter `half`, with the relative error 2^-11 where a lemma needs
  it.
- NaN and infinite inputs of the block quantisers, and -0.0 of a stored scale: weights and scales are real numbers.
- The values of `powf`, which are transcendental: METEOR's power is a parameter, positive on (0, 1] where a lemma says
  so, and at most 1 there for exponents that are not negative.
- BitReading.BitReader.Bits: or-ing a bit into a vacant place is written as adding it.
- Huffman.Decode: or-ing the next bit into the code and shifting are written as addition and doubling.
- Threads.GemmAbt: runs the blocks one after another; that any other interleaving ends the same is `AnyInterleaving`, at
  the grain of one store to a step.
- Reads and writes of real hardware memory below the grain of one store, and the raw-pointer casts themselves.
- The width of usize and u64: sizes, offsets and seconds are unbounded.
- The outer loop and `dequant` of Q8_K, the row variants `dequant_row_to_buf` and the single-block `dequant_to_buf`: the
  same loops again.
- The zero-copy casts `slice_from_bytes`, aligned allocation, memory mapping and GGUF reading: memory layout.
- PNG framing, checksums and `zlib_compress`: an external library's encoder.
- Softmax, layer norm, rotary and timestep embeddings: transcendental functions over f32.
- GPU backends, kernel dispatch and environment switches: foreign calls.
- The other matrix-vector kernels (Q2_K to Q8_K, Q4_0, Q8_0, FP8): dequantise, then the same dot product.
- Tokenisation, text normalisation, benchmark loaders, report formatting and the other ROUGE variants: string handling
  around the modelled counts.
