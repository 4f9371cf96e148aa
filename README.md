# libsqueeze in Dafny

A model of `sq/squeeze.hpp`, the header-only codec of libsqueeze. The codec compresses
sequences of `uint32_t` into a bit vector. It has four layers, and each is a module here:

- **Bits** (`bits.dfy`) holds the vocabulary shared by the other modules:
  - `u32` and `byte`;
  - `ToBits(v, n)`, the low `n` bits of `v`, most significant first, and `FromBits`/`Val`, the number a stretch of bits denotes;
  - `BitLength` (what `bit_width` computes);
  - `Unpack`, the bits of a byte buffer, most significant bit of each byte first;
  - the arithmetic and sequence lemmas the proofs use.
- **BitStream** (`bitstream.dfy`) models the two stream classes:
  - `BitWriter` is `obitstream`. It keeps the bytes it appended, the cursor `bitOffset` and a ghost sequence `written` of every bit written so far. Its invariant ties the three together.
  - `BitReader` is `ibitstream`. It keeps the buffer, the byte being read, the cursor and the index of the next byte to fetch. `Position()` is the number of bits read so far, an index into the ghost `stream` of the buffer's bits.
- **Codes** (`codes.dfy`) models the fixed-width binary code and the Elias gamma code.
  - `GammaCode(v)` is the specification of the encoder.
  - `GammaAt(s, p)` is the specification of the decoder at index `p` of a bit stream.
- **Packer** (`packer.dfy`) models `detail::compress_simple_array_selector`, the adaptive block packer.
  - `Choose` is the selector search.
  - `PackBits(width, vs)` is every bit the packer writes.
  - `DecodeValues` is the decoding loop of `read_delta_array`, step by step.
- **Arrays** (`arrays.dfy`) models `write_delta_array`/`read_delta_array` and `write_array`/`read_array`.
  - `DeltaArrayAt(s, p)` is the specification of the delta-array decoder.
  - `Gap`/`Ungap` are the 32-bit gap arithmetic of the increasing-array codec.
  - The module ends with the round trips of the unit tests, as methods that write into a fresh writer, sync it and read back through a reader over its bytes.

Each C++ loop is a method with loop invariants. Where one function of the header has several loops or a long loop body, each loop or step is its own method:

- `write_gamma`: `WriteUnary` and `WriteLow`.
- `read_gamma`: `ReadUnary` and `ReadLow`.
- the packer: `Refill`, `Push`, `ChooseSelector`, `ConsiderSelector`, `SelectorWaste`, `WriteBlock`, `WriteValues`, `Consume` and `ShiftDown`.
- `read_delta_array`: `ReadValues` and `ReadValue`.

The look-ahead buffers `bn[4]` and `dv[4]` of the packer are arrays shifted in place. The result of `read_delta_array` is an array filled in order.

The `assert`s of the header are preconditions:

- `0 < bit_count` in `read_binary` and `write_binary`;
- `value > 0` in `write_gamma`;
- `v1 != 0` in `read_gamma`;
- the ordering check of `write_array`.

The central results are these round trips:

- **Packer.** `PackRoundTrip` decodes what the packer wrote from the same starting width. It gives back the values and ends right after the packed bits, provided every value is below 2^30.
- **Delta arrays.** `DeltaArrayRoundTrip` says the bits `write_delta_array` emits decode to the same array.
- **Increasing arrays.** `ArrayRoundTrip` says the same of `write_array`, whose gaps `read_array` turns back into the array.
- **Full path.** `DeltaArrayTrip` and `ArrayTrip` go through the whole path of the unit tests:
  1. write into a fresh writer;
  2. `sync()`;
  3. build a reader over the writer's bytes;
  4. read back.

  They return exactly their input.

The writer's trailing fresh byte leaves at least one zero bit after everything written (`BitReader.FromWriter`). That bit is what keeps the reader's eager fetch of the next byte inside the buffer.

## Model

| member | source | states |
|---|---|---|
| Bits.BitLength | include/sq/squeeze.hpp:183-192 | the bit width r of v is minimal: v < 2^r, and 2^(r-1) <= v when v >= 1 |
| Bits.BitLengthFits | include/sq/squeeze.hpp:228-245 | a value fits in w bits exactly when its bit width is at most w (the fit test of the selector search) |
| Bits.FromToBits | include/sq/squeeze.hpp:57-70 | the number denoted by the low n bits of v, most significant first, is v mod 2^n |
| BitStream.BitWriter.constructor | include/sq/squeeze.hpp:32-36 | the writer pushes one zero byte onto the caller's vector, has written nothing and starts at bit 7 |
| BitStream.BitWriter.WriteBit | include/sq/squeeze.hpp:42-52 | the written bits grow by exactly the bit; the cursor moves down by one, back to 7 when a fresh byte is pushed; the byte/cursor/bits invariant is kept |
| BitStream.BitWriter.Write | include/sq/squeeze.hpp:57-70 | the written bits grow by exactly the low n bits of value, most significant first, and by nothing when n <= 0 |
| BitStream.BitWriter.Sync | include/sq/squeeze.hpp:73-79 | one 0 bit then between 0 and 7 one bits are appended; afterwards the bit count is a multiple of 8, the cursor is 7 and every earlier bit is unchanged |
| BitStream.BitWriter.Size | include/sq/squeeze.hpp:85 | the vector holds what it held before, plus 1 + (bits written)/8 bytes |
| BitStream.BitWriter.Data | include/sq/squeeze.hpp:82 | the vector's bytes hold what it held before, the written bits, then 8 - (bits written mod 8) >= 1 zero bits |
| BitStream.Contents | include/sq/squeeze.hpp:32-52 | the writer invariant in the source's terms: byte count 1 + bits/8, cursor 7 - bits mod 8, bits not yet written all zero |
| BitStream.StoreBit | include/sq/squeeze.hpp:44-45 | or-ing 1 << bitOffset into the last byte stores the bit after the written ones and leaves the rest zero |
| BitStream.BitReader.constructor | include/sq/squeeze.hpp:106-107 | reading starts at the most significant bit of the first byte |
| BitStream.BitReader.FromWriter | include/sq/squeeze.hpp:110-111 | a reader over a writer's vector sees the vector's earlier bits, the written bits and at least one zero bit after them |
| BitStream.BitReader.Read | include/sq/squeeze.hpp:117-142 | read(bc) returns the next bc bits, most significant first, as a number and advances by exactly bc (by nothing when bc <= 0), provided a bit is left for the eager fetch |
| BitStream.BitReader.ReadPass | include/sq/squeeze.hpp:124-138 | one pass of the read loop takes the unread bits of the current byte, at most rem, and keeps result equal to the value of every bit read so far |
| BitStream.ByteChunk | include/sq/squeeze.hpp:130 | kM[bw] & (m_byte >> shift) is the value of the bw bits of the stream that the byte holds there |
| BitStream.BitReader.ReadBit | include/sq/squeeze.hpp:144-146 | operator() returns the next bit of the stream and advances by one |
| Codes.WriteBinary | include/sq/squeeze.hpp:300-307 | write_binary appends exactly the low bit_count bits of value, most significant first |
| Codes.ReadBinary | include/sq/squeeze.hpp:292-298 | read_binary returns the value of the next bit_count bits and advances by bit_count |
| Codes.BinaryRoundTrip | include/sq/squeeze.hpp:292-307 | reading n bits back where the low n bits of v were written gives v mod 2^n |
| Codes.GammaCode | include/sq/squeeze.hpp:332-353 | the gamma code of v has 2 floor(log2 v) + 1 bits |
| Codes.WriteUnary | include/sq/squeeze.hpp:336-344 | the first loop of write_gamma writes floor(log2 value) one bits |
| Codes.WriteLow | include/sq/squeeze.hpp:347-352 | the second loop of write_gamma writes the e bits of value below its top bit |
| Codes.WriteGamma | include/sq/squeeze.hpp:332-353 | write_gamma appends exactly the gamma code of value, for value > 0 |
| Codes.GammaAt | include/sq/squeeze.hpp:312-330 | what read_gamma decodes is at least 1 and consumes at least one bit |
| Codes.GammaRunBelow32 | include/sq/squeeze.hpp:317-323 | the run of ones in the gamma code of a 32-bit value is shorter than 32, so v1 never wraps to 0 |
| Codes.ReadUnary | include/sq/squeeze.hpp:314-323 | the first loop of read_gamma counts the run of ones e, returns v1 = 2^e and stops after the terminating zero |
| Codes.ReadLow | include/sq/squeeze.hpp:325-329 | the second loop of read_gamma returns the value of the next e bits |
| Codes.ReadGamma | include/sq/squeeze.hpp:312-330 | read_gamma returns what the gamma decoder specifies and stops where it stops |
| Codes.GammaRoundTrip | include/sq/squeeze.hpp:312-353 | decoding a gamma code anywhere in a stream gives v back and ends right after the code |
| Codes.GammaAtExact | include/sq/squeeze.hpp:312-330 | whatever read_gamma accepts is exactly the gamma code of the value it returns |
| Packer.SelectorSpans | include/sq/squeeze.hpp:167-180 | every selector of kSelectors covers 1, 2 or 4 values |
| Packer.BitWidth | include/sq/squeeze.hpp:183-192 | bit_width returns the bit width of v, at most 32, and 0 exactly for v == 0 |
| Packer.SelectorTable | include/sq/squeeze.hpp:167-180 | kSelectors has 16 entries: entry 0 is the escape (width change 0, one value); entries 1 to 15 are distinct, ordered by width change and then by span, with width changes between -4 and 4 |
| Packer.NextWidth | include/sq/squeeze.hpp:256-259 | after the escape the width is 30; after any other selector it moves by at most 4 |
| Packer.Scan | include/sq/squeeze.hpp:215-254 | the selector loop keeps its current pick or replaces it by a later selector that is usable: it covers no more than the buffered values, its width lies in 0..30, and every value it covers fits |
| Packer.Choose | include/sq/squeeze.hpp:212-254 | the selector the packer picks is the escape or a usable selector |
| Packer.ScanGrows | include/sq/squeeze.hpp:244-253 | the selector loop only replaces its pick with one of strictly higher score, so it never ends below the score it started from |
| Packer.ScanBest | include/sq/squeeze.hpp:215-254 | no usable selector considered by the loop scores more than the one it ends on |
| Packer.ChooseBest | include/sq/squeeze.hpp:212-254 | the chosen selector scores at least as much as the escape (bns[0] - 30) and as every usable selector: the search finds a best-scoring selector |
| Packer.ChooseFits | include/sq/squeeze.hpp:212-259 | the chosen selector covers between 1 and bc values, the new width is in 0..30, and unless it is the escape every covered value fits that width |
| Packer.ChooseSelector | include/sq/squeeze.hpp:212-254 | the selector loop returns the selector the specified search picks |
| Packer.ConsiderSelector | include/sq/squeeze.hpp:217-253 | one step of the selector loop leaves the outcome of the search unchanged |
| Packer.SelectorWaste | include/sq/squeeze.hpp:225-242 | the fall-through switch computes whether the first span values fit w and their total waste |
| Packer.WasteCases | include/sq/squeeze.hpp:228-242 | the waste is the sum of w - bn[k] over the covered values, case by case as in the switch |
| Packer.BitWidths | include/sq/squeeze.hpp:208 | bn[k] is the bit width of the k-th buffered value |
| Packer.Payload | include/sq/squeeze.hpp:267-268 | a block of n values in width w takes n * w bits |
| Packer.PackHead | include/sq/squeeze.hpp:203-281 | the packed bits start with the selector in 4 bits and the block of span values in the new width; the rest is the packing of the remaining values from that width |
| Packer.PackBitsSize | include/sq/squeeze.hpp:194-282 | the packer writes nothing for an empty array, and otherwise at most 34 bits per value: one four-bit selector per block and at most 30 bits per value |
| Packer.BlockFits | include/sq/squeeze.hpp:23 | values below 2^30 fit the escape width 30, and values whose bit width is at most w fit w bits |
| Packer.CompressSimpleArraySelector | include/sq/squeeze.hpp:194-282 | the packer appends exactly the packing of arr from kStartWidth |
| Packer.Refill | include/sq/squeeze.hpp:205-210 | the look-ahead buffer holds the next min(4, remaining) values and their bit widths |
| Packer.Push | include/sq/squeeze.hpp:207-209 | one value and its bit width join the look-ahead buffer |
| Packer.WriteBlock | include/sq/squeeze.hpp:212-271 | one block keeps the width in 0..30, consumes between 1 and bc values, and what is written plus the packing of the rest is unchanged |
| Packer.WriteValues | include/sq/squeeze.hpp:265-269 | the block's values go out in the running width, one after the other |
| Packer.PayloadZeroWidth | include/sq/squeeze.hpp:265 | a block in width 0 writes no bits |
| Packer.Consume | include/sq/squeeze.hpp:271-280 | bc drops by span and the buffer holds the values after the block, in order |
| Packer.ShiftDown | include/sq/squeeze.hpp:273-280 | the buffer entries move down by n; the last n stay as they were |
| Packer.ShiftedBuffer | include/sq/squeeze.hpp:273-280 | after the shift the buffer holds the remaining values and their bit widths in order |
| Packer.ValueAt | include/sq/squeeze.hpp:390-395 | one value read in the running width stays in the stream and counts the span down |
| Packer.NextValue | include/sq/squeeze.hpp:379-395 | one pass of the decoder loop stays in the stream |
| Packer.DecodeSelector | include/sq/squeeze.hpp:379-388 | when the span is used up, the decoder reads the selector and applies its width and span as the encoder did |
| Packer.BlockValue | include/sq/squeeze.hpp:390-395 | a value in the running width is read back as one step of the decoder |
| Packer.PayloadBlock | include/sq/squeeze.hpp:267-268 | a written block of values, each in w bits, can be read back value by value |
| Packer.DecodeValuesCount | include/sq/squeeze.hpp:377-396 | a successful decoding loop yields exactly as many values as asked for and ends inside the stream |
| Packer.DecodeBlock | include/sq/squeeze.hpp:377-396 | the decoder reads a block's values back in order, then continues after the block |
| Packer.PackRoundTrip | include/sq/squeeze.hpp:194-282 | decoding the packed bits from the same width gives the values back and ends exactly after them, for values below 2^30 |
| Arrays.WriteDeltaArray | include/sq/squeeze.hpp:412-417 | write_delta_array appends the gamma code of the count, truncated to 32 bits, then the packed values |
| Arrays.DeltaArrayAt | include/sq/squeeze.hpp:368-399 | a successful decoding of read_delta_array yields between 1 and 2^32 - 1 values and consumes at least one bit |
| Arrays.ReadValue | include/sq/squeeze.hpp:379-395 | one pass of the loop of read_delta_array reads what the decoder specifies: a selector when the span is used up, then a value (0 in width 0) |
| Arrays.ReadValues | include/sq/squeeze.hpp:374-396 | the loop of read_delta_array fills the result with exactly the values the decoder specifies, in order |
| Arrays.ReadDeltaArray | include/sq/squeeze.hpp:368-399 | read_delta_array returns what the delta-array decoder specifies and stops where it stops |
| Arrays.DecodeAdvance | include/sq/squeeze.hpp:377-396 | after each value the values read so far followed by the rest of the decoding make up the whole decoding |
| Arrays.DeltaArrayRoundTrip | include/sq/squeeze.hpp:368-417 | the bits write_delta_array emits for a non-empty array of values below 2^30 decode to that array and end right after them |
| Arrays.Gap | include/sq/squeeze.hpp:459 | the 32-bit gap v - last - 1 is the plain difference less one when v > last, and that plus 2^32 otherwise |
| Arrays.Ungap | include/sq/squeeze.hpp:435 | the 32-bit rebuild d + last + 1 is the plain sum plus one when it fits in 32 bits, and that less 2^32 otherwise |
| Arrays.Gaps | include/sq/squeeze.hpp:452-461 | write_array stores one gap per value |
| Arrays.Ungaps | include/sq/squeeze.hpp:433-435 | read_array rebuilds one value per gap |
| Arrays.GapInverse | include/sq/squeeze.hpp:433-435 | the gap v - last - 1 and the rebuild d + last + 1, both mod 2^32, undo each other; the first gap, after last = 2^32 - 1, is the value itself |
| Arrays.GapsIndex | include/sq/squeeze.hpp:452-461 | deltas[0] is the gap of arr[0] after 2^32 - 1, and deltas[i] the gap of arr[i] after arr[i-1] |
| Arrays.GapsBelow | include/sq/squeeze.hpp:452-461 | for a strictly increasing array below some bound, every gap is below that bound |
| Arrays.UngapsGaps | include/sq/squeeze.hpp:429-465 | rebuilding from the gaps of an array gives the array back |
| Arrays.GapsUngaps | include/sq/squeeze.hpp:429-465 | taking the gaps of rebuilt values gives the gaps back |
| Arrays.ComputeGaps | include/sq/squeeze.hpp:449-462 | the loop of write_array produces exactly the gaps of arr, the first taken from UINT32_MAX; none for an empty array |
| Arrays.AscendingAsAsserted | include/sq/squeeze.hpp:458 | every strictly increasing array passes the assertion of write_array |
| Arrays.AssertAdmitsDescent | include/sq/squeeze.hpp:458 | the converse fails: {4294967295, 0} passes the assertion but is not increasing |
| Arrays.WriteArray | include/sq/squeeze.hpp:447-465 | write_array appends the delta-array encoding of the gaps of arr |
| Arrays.UngapsAbove | include/sq/squeeze.hpp:433-435 | the values rebuilt after last stay strictly above it and strictly increasing exactly when last plus every gap plus one stays below 2^32 |
| Arrays.ReadArrayIncreasing | include/sq/squeeze.hpp:421-438 | what read_array returns is increasing, and so unique as its documentation promises, exactly when the first gap plus every later gap plus one stays below 2^32 |
| Arrays.ReadArray | include/sq/squeeze.hpp:429-438 | read_array returns the values whose gaps are the delta array in the stream |
| Arrays.ArrayRoundTrip | include/sq/squeeze.hpp:429-465 | for a non-empty strictly increasing array of values below 2^30, the bits write_array emits decode to its gaps, and the rebuild gives the array back |
| Arrays.DeltaArrayTrip | unit-test.cpp:11-25 | write_delta_array into a fresh writer, sync, then read_delta_array through a reader over its bytes returns the input |
| Arrays.ArrayTrip | unit-test.cpp:87-101 | write_array into a fresh writer, sync, then read_array through a reader over its bytes returns the input |
| Arrays.Test1 | unit-test.cpp:11-25 | the vector {1, 2, 3, 3, 2, 1} survives the delta-array round trip |
| Arrays.Test2 | unit-test.cpp:27-41 | the vector {3, 2, 1, 0} survives the delta-array round trip |
| Arrays.Test3 | unit-test.cpp:43-57 | the vector {0, 1, 2, 3} survives the delta-array round trip |
| Arrays.Test4 | unit-test.cpp:60-74 | the vector {3, 0, 0, 3} survives the delta-array round trip |
| Arrays.Test6 | unit-test.cpp:87-101 | the vector {1, 2, 3, 4, 5} survives the increasing-array round trip |
| Arrays.Test7 | unit-test.cpp:103-117 | the vector {0, 2, 4, 10, 11, 125, 32767, 32768, 32769} survives the increasing-array round trip |

## Left out

- `operator<<` and `operator>>` forward to `write_bit` and `read(1)`; they have no members of their own. `operator()` is `BitReader.ReadBit`.
- The raw pointers of the reader are not modelled. The reader works on a finite byte sequence, and each read requires a bit to be left after it for the eager fetch. Reads past the end of the buffer are not modelled.
- The writer holds a reference to the caller's vector. The model keeps the vector's earlier contents (`prefix`) and the bytes the writer appended, but not aliasing with other users of the vector.
- `data()` returns the vector's bytes as a sequence rather than a pointer.
- BitStream.BitReader.Read: `bc` is limited to 32, the width of the result.
- BitStream.BitWriter.Write: each bit goes through `WriteBit`. That is the same byte update as the loop body of `write`, which the source writes out inline.
- Codes.ReadGamma: requires a well-formed gamma code at the read position, which rules out the run of 32 or more ones that the assertion `v1 != 0` catches. What a release build returns for such a run, or for a stream that ends inside the code, is not modelled.
- Arrays.WriteDeltaArray: an empty array, whose count 0 `write_gamma` asserts away, is excluded by a precondition. So is a count that truncates to 0 in 32 bits.
- Arrays.DeltaArrayRoundTrip: holds for arrays of fewer than 2^32 values below 2^30. Larger values are truncated to their low 30 bits by the escape selector, which `CompressSimpleArraySelector` models, and are not read back.
- Arrays.ArrayRoundTrip: holds for strictly increasing arrays. `write_array` itself accepts any array its assertion accepts (`AscendingAsAsserted`).
- Arrays.ReadDeltaArray: the decoder is specified only for streams that hold a well-formed delta array. Decoding arbitrary bits is not modelled. In particular, the 32-bit wrap of `width += databits` cannot happen on the encoder's output, and `DecodeValues` treats it as a failure.
- Arrays.ReadArray: the rebuild updates a sequence value element by element rather than the vector in place.
- The selector search is proved to pick a best-scoring selector (`ChooseBest`), but the score itself is not proved to give the densest packing of the whole array. The 32-bit signed arithmetic of the score cannot overflow for widths up to 30 and is modelled with unbounded integers.
- Arrays.ReadArray: the result is increasing only when the gaps climb less than 2^32 (`ReadArrayIncreasing`). A stream write_array did not produce from an increasing array can give a result that is not increasing, as read_array's documentation does not warn.
- The test harness of `unit-test.cpp` is not modelled. Its vectors are the `Test` methods. test_5 is commented out in the source.

## Findings

| source | as written | input that shows it | evidently intended | confidence | as-written member | corrected member |
|---|---|---|---|---|---|---|
| include/sq/squeeze.hpp:458 | `assert(v > last or last == UINT32_MAX)` exempts every value that follows UINT32_MAX, not only the first value of the array | arr = {4294967295, 0} passes the assertion although it is not increasing | only the first value is exempt, so the assertion accepts exactly the unique, increasing arrays of the documentation at lines 440-442 | medium (not executed); the assertion only guards debug builds | Arrays.AssertAdmitsDescent | Arrays.ArrayRoundTrip |

The corrected check is `StrictlyIncreasing`. `ArrayRoundTrip` and `ArrayTrip` use it, and prove that such arrays come back unchanged. `WriteArray` keeps the assertion as written, because it only restricts callers and does not change what is written.
