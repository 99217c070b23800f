# Liquid cache: a verified model

A Dafny 4.11 model of a columnar cache. Columns are held in memory in compact encodings, each decoded on
read, under a byte budget with least-recently-used eviction. The model follows the C++ headers under
`include/liquid_cache/` and the split reader in `src/liquid_to_velox.cpp`. `dafny verify dfyconfig.toml`
verifies the whole project.

## What is modelled

The layers build on one another, bottom up.

- **Bits and bytes** (`Arith`, `Bytes`, `BitPacking`). Registers are integers, shifts and masks are functions
  on integers, and a byte buffer is one little-endian number. Widths are explicit: wrapping, truncation and
  sign extension are written out.
- **Bit packing** (`BitPackedArray.dfy`, `Unpacking`). `pack` ORs shifted bytes into a zeroed buffer, `get` reads
  one or two words back, and every bulk path fills an array. The central fact is that the buffer, as a number,
  is the sum of the elements shifted to their places; every reader is proved against it.
- **Column encodings** (`FrameOfReference`, `Delta`, `Linear`, `Alp`). A column is a sequence of value slots with
  an optional validity bitmap, as in the Apache Arrow Columnar Format, section "Validity bitmaps": a set bit
  means valid, and a null row still has a slot of any content. Each encoder and decoder is a loop proved against
  a function on columns. Floating-point encoding, the fitted line and the exponent choice are parameters: any
  functions at all. The comparisons are those of section 5.11 of IEEE 754 (`Ieee`).
- **Squeezed floats** (`Quantized`, `SqueezeLimits`). Comparisons answered from half-width buckets, with patches, in three
  values.
- **Strings** (`Fsst`, `CompactOffsets.dfy`, `Chunks`, `ByteView*`). The counting-sort lookup table, the compressor,
  offsets stored as residuals from an arbitrary line, and the array that composes deduplication, shared prefix,
  compression, offsets and packed keys, with its lazily built dictionary and its serialized form.
- **The cache** (`Budget`, `Lru`, `CacheModel`, `Store.dfy`, `Splits`). The budget's compare-and-swap loop alone and
  under any interleaving of threads, the recency list, the store as a state machine over whole runs, and split reads.

Where a promise of the code does not hold, the model keeps the code, states exactly when the promise holds, and
gives an input for which it fails:

- The vector build copies elements of the width of the output with a 32-bit byte index, which starts over at 2^32 bytes:
  beyond them a row is decoded as the row 2^32 bytes further back (`BitPacked.SeenRightIff`,
  `FrameOfReference.StepMisread`). The 32-bit counters of the unpacking loops, and the size of the bitmap, wrap near 2^32
  rows (`Unpacking.VectorLoopEndsIff`, `Unpacking.BlockedLoopEndsIff`, `BitPacked.BitmapBytesIff`). Each round trip says
  what that means for a column.
- A 64-bit column in the linear encoding loses exactly the rows whose residual saturates, or in the unsigned fallback
  the values from 2^63 up. It comes back whole if and only if some two of its rows differ by more than the residuals of any
  two and no residual saturates, or else no unsigned value reaches 2^63 (`Linear.RoundTrip`, `Linear.FallsBackIff`,
  `Linear.WideTypeLosesRow`).
- A string column is restored if and only if it has at most 65536 distinct values (`ByteViewColumns.RestoredExactly`),
  and its array parses back if and only if its sections fit their 32-bit sizes (`ByteViewBytes.ParsesBackIff`). A
  dictionary array whose valid indices name null entries loses those nulls (`ByteViewColumns.DictRestoredIff`).
- A squeezed column answers every comparison rightly if and only if every row that is answered from its bucket lies in the
  bucket computed for it (`Quantized.AnswersSoundIff`). Rows fall outside when the reference is not within their remainder,
  when half the width does not hold their quantum, and when a patch on a null row leaves a later patched row to its bucket:
  `SqueezeLimits` gives a column for each.
- The budget counts every insertion but a growing update that evicts itself, which a test on the state before tells
  (`CacheModel.CountedIff`, `CacheModel.EvictsItselfIff`, `CacheModel.SelfEvictionDrifts`). An overflowing request is
  granted (`Budget.OverflowIsGranted`, `CacheModel.WrappedSum`), and otherwise the count is exact if and only if no sum
  wraps (`CacheModel.PutExactIff`, `CacheModel.AlwaysExactIff`).
- Making room delists whole groups of eight, so unless it erases whole groups some entries stay cached and can no longer be
  evicted (`CacheModel.KeepsListedIff`, `CacheModel.DelistedStays`, `CacheModel.StrandedKey`).
- A read of a split does not fail when some batches of a column are missing, as its comment says. Its columns agree on
  every row group if and only if they lack the same batches (`Splits.EvenReadIff`, `Splits.RaggedRead`).

Conventions. Where the original shifts a 64-bit word by 64, the result is taken as 0; the other operand is 0
there. Signed additions that overflow are taken to wrap. `llround` is taken as exact above 2^63; only
`Linear.PredictIsNearest` speaks of what it gives there. A Dafny parameter `avx2` stands for the build option that
selects the vector paths.

## Model

| member | source | states |
|---|---|---|
| `BitPacking.PackedElement` | include/liquid_cache/bit_packed_array.h:69-100 | in the number that packing builds, the field of every element is its value cut to the width |
| `BitPacking.ReadElementCorrect` | include/liquid_cache/bit_packed_array.h:103-143 | one or two word reads, cut at the end of the buffer, give the field at any bit offset and width, also across nine bytes |
| `BitPacking.Straddle` | include/liquid_cache/bit_packed_array.h:117-141 | the low part of one word joined with the high part of the next is the whole field |
| `BitPacking.ElementInPlace` | include/liquid_cache/bit_packed_array.h:81-99 | after the byte loops of one value the buffer has gained exactly the shifted value |
| `BitPacked.GetAfterPack` | include/liquid_cache/bit_packed_array.h:69-143 | reading after packing gives the value cut to the width, and 0 past the end, for every width |
| `BitPacked.HoldsStores` | include/liquid_cache/bit_packed_array.h:69-143 | the packed state stores every element of the input |
| `BitPacked.BitPackedArray.constructor` | include/liquid_cache/bit_packed_array.h:48-63 | a new array holds the values at the width, and the first bytes of the bitmap, or none of it for counts within seven of 2^32 |
| `BitPacked.BitmapBytesIff` | include/liquid_cache/bit_packed_array.h:53-57 | the 32-bit size of the bitmap covers the rows if and only if the count is more than seven below 2^32; from there on the bitmap is dropped |
| `BitPacked.BitPackedArray.Pack` | include/liquid_cache/bit_packed_array.h:69-100 | the buffer is exactly the bytes of the packed number, at the exact size; the bitmap is untouched |
| `BitPacked.BitPackedArray.PackElements` | include/liquid_cache/bit_packed_array.h:78-99 | the element loop turns a zero buffer into the packed number |
| `BitPacked.BitPackedArray.PackElement` | include/liquid_cache/bit_packed_array.h:81-99 | ORing the low and the lost bytes of one shifted value adds it at its bit offset |
| `BitPacked.BitPackedArray.Get` | include/liquid_cache/bit_packed_array.h:103-143 | equals the field of the buffer's number, with every bounds check of the code |
| `BitPacked.BitPackedArray.UnpackAll` | include/liquid_cache/bit_packed_array.h:146-152 | every element in order |
| `BitPacked.BitPackedArray.BulkUnpackTo` | include/liquid_cache/bit_packed_array.h:255-277 | whichever path is taken, writes the elements that path sees cut to the output type, and nothing past the length, for every count at which its loop ends |
| `BitPacked.SeenElement` | include/liquid_cache/bit_packed_array.h:339-394 | the element a row is given: its own, or, past 2^32 bytes of copied elements, that of the row 2^32 bytes further back |
| `BitPacked.SeenRightIff` | include/liquid_cache/bit_packed_array.h:339-394 | for a count, a width and an output type, every content is read right if and only if the copies do not run past 2^32 bytes |
| `BitPacked.SpikeMisread` | include/liquid_cache/bit_packed_array.h:361-389 | past them, the row at 2^30 or 2^31 of a buffer whose first row is 1 is read as 1 instead of 0 |
| `Unpacking.VectorLoopEndsIff` | include/liquid_cache/bit_packed_array.h:283-389 | the 32-bit guard of a vector loop turns false at some step if and only if the count is below 2^32 less a block |
| `Unpacking.BlockedLoopEndsIff` | include/liquid_cache/bit_packed_array.h:434-435 | the 32-bit counter of the blocked loop reaches the count if and only if the count is at most 2^32 less 64 |
| `Unpacking.AllEndIff` | include/liquid_cache/bit_packed_array.h:255-277 | the counts for which the loop ends at every width: below 2^32 less 256 for the vector build, up to 2^32 less 64 otherwise |
| `Unpacking.VectorBlockBits` | include/liquid_cache/bit_packed_array.h:283-389 | every vector path takes 256 bits of elements at a step |
| `Unpacking.EndsInNumbers` | include/liquid_cache/bit_packed_array.h:255-460 | for which counts the loop of a path ends, by width, output type and build |
| `Unpacking.UnpackWidth1` | include/liquid_cache/bit_packed_array.h:283-300 | blocks of 256 bits on a 32-bit counter and the bit tail write the fields |
| `Unpacking.UnpackWidth2` | include/liquid_cache/bit_packed_array.h:302-318 | blocks of 128 on a 32-bit counter and the tail write the fields |
| `Unpacking.UnpackWidth4` | include/liquid_cache/bit_packed_array.h:322-335 | blocks of 64 on a 32-bit counter and the tail write the fields |
| `Unpacking.UnpackCopy` | include/liquid_cache/bit_packed_array.h:339-394 | the vector copies of widths 8, 16 and 32, with their 32-bit byte index, write the fields of the bytes as that index reads them |
| `Unpacking.UnpackBlocked` | include/liquid_cache/bit_packed_array.h:426-460 | the running bit offset stays on the element, and both read variants give its field, on a 32-bit block counter |
| `Unpacking.UnpackScalar` | include/liquid_cache/bit_packed_array.h:465-529 | the dispatch by width writes the fields for every width from 1 to 64 |
| `BitPacked.BitPackedArray.NullCount` | include/liquid_cache/bit_packed_array.h:544-551 | the number of unset bits among the rows |
| `Arrow.BitSetMeans` | include/liquid_cache/bit_packed_array.h:155-158 | bit `i` of a bitmap is the one of weight 2^(i mod 8) in byte i / 8 |
| `Arrow.CountUnsetExact` | include/liquid_cache/bit_packed_array.h:544-551 | the count is the number of rows whose bit is unset |
| `BitPacked.ParseUndoesPrint` | include/liquid_cache/bit_packed_array.h:161-238 | the serialized form parses back to the same array, whatever bytes follow |
| `BitPacked.PrintLayout` | include/liquid_cache/bit_packed_array.h:161-200 | the place of every field of the header, of the bitmap, of the zeros behind it and of the data at the next multiple of eight |
| `BitPacked.TruncatedRefused` | include/liquid_cache/bit_packed_array.h:203-238 | a buffer that ends inside the packed data is refused |
| `BitPacked.BitPackedArray.Serialize` | include/liquid_cache/bit_packed_array.h:161-200 | appends the serialized form, with padding counted from its own start |
| `BitPacked.BitPackedArray.Deserialize` | include/liquid_cache/bit_packed_array.h:203-238 | every success and every error of parsing |
| `Native.GetBitWidth` | include/liquid_cache/liquid_arrays.h:49-56 | a width that holds the value, and no shorter one, but at least 1 |
| `Native.GetBitWidthLeast` | include/liquid_cache/liquid_arrays.h:49-56 | no smaller width holds the value |
| `FrameOfReference.ComputeMinMax` | include/liquid_cache/liquid_arrays.h:67-110 | bounds over the valid rows that are attained, and zeros when there is none |
| `FrameOfReference.StoredCut` | include/liquid_cache/liquid_arrays.h:231-236 | the differences of 8 and 16-bit types, promoted and sign-extended, pack to the same bits as the wrapping difference |
| `FrameOfReference.RestoreOffset` | include/liquid_cache/liquid_arrays.h:214-288 | an offset cut to the width of the range, added back with wrapping, is the value, for every signed and unsigned type |
| `FrameOfReference.EncodedColumn` | include/liquid_cache/liquid_arrays.h:214-251 | packed offsets decode to the column although null slots lie outside the range, if and only if its bitmap is kept |
| `FrameOfReference.LiquidPrimitiveArray.FromArrow` | include/liquid_cache/liquid_arrays.h:194-251 | what is built holds the offsets from the least value at the least width of the range, and decodes to the same column if and only if its bitmap is kept |
| `FrameOfReference.SeenColumn` | include/liquid_cache/liquid_arrays.h:255-288 | what a bulk path decodes: the same nulls, and at every other row the value of the row whose element it reads |
| `FrameOfReference.LiquidPrimitiveArray.ToArrow` | include/liquid_cache/liquid_arrays.h:255-288 | the column decoded from what the bulk path sees, and its null count |
| `FrameOfReference.RoundTrip` | include/liquid_cache/liquid_arrays.h:194-288 | over the full range of 8 to 64 bits, the column comes back if and only if the rows a copy confuses hold equal values; it confuses none unless full-width values fill more than 2^32 bytes |
| `FrameOfReference.StepMisread` | include/liquid_cache/liquid_arrays.h:255-288 | a column of 2^30 + 1 full-range 32-bit values whose last row the vector build decodes as its first |
| `Delta.ZigZagRoundTrip` | include/liquid_cache/liquid_arrays.h:747-751 | the inverse zigzag of a zigzag code is the difference, in 64-bit registers |
| `Delta.StepUndoesCode` | include/liquid_cache/liquid_arrays.h:742-815 | the decoder's step by a row's code leads from the previous value to the row, even when the difference wraps |
| `Delta.CodeUndoesStep` | include/liquid_cache/liquid_arrays.h:742-815 | one step of the encoder undoes one step of the decoder, for every code of the width |
| `Delta.CodeExact` | include/liquid_cache/liquid_arrays.h:722-756 | a null row and the first valid row have code 0; any other row twice the signed difference from the last valid row before it, or one less than twice its negation |
| `Delta.RunningTracksColumn` | include/liquid_cache/liquid_arrays.h:794-818 | the decoder's running value is the last valid value, for any null pattern |
| `Delta.RowsRestoredIff` | include/liquid_cache/liquid_arrays.h:794-818 | the decoder writes every valid row back if and only if each code leads from the valid row before it to its row |
| `Delta.LiquidPrimitiveDeltaArray.EncodeLoop` | include/liquid_cache/liquid_arrays.h:722-756 | the codes, their greatest, and the first valid value as anchor |
| `Delta.LiquidPrimitiveDeltaArray.FromArrow` | include/liquid_cache/liquid_arrays.h:701-773 | what is built holds the codes at the width of the greatest, and decodes to the same column if and only if its bitmap is kept |
| `Delta.LiquidPrimitiveDeltaArray.ToArrow` | include/liquid_cache/liquid_arrays.h:776-832 | the column decoded from what the bulk path sees, and its null count |
| `Delta.RoundTrip` | include/liquid_cache/liquid_arrays.h:701-832 | for any null pattern and any values, lossless if and only if the rows a copy confuses have equal codes; it confuses none unless full-width codes fill more than 2^32 bytes |
| `Linear.RebuildExactly` | include/liquid_cache/liquid_arrays.h:510-518 | prediction plus residual is the value if and only if the residual did not saturate |
| `Linear.Saturates` | include/liquid_cache/liquid_arrays.h:510-516 | a residual that does not fit is the end of the 64-bit range it passes; a rebuilt value is the sum, or the end of the type it passes |
| `Linear.PredictIsNearest` | include/liquid_cache/liquid_arrays.h:359-370 | a prediction is a nearest integer to the line within the type, the end it passes outside it, and 0 when the line is not finite |
| `Linear.FallbackExactly` | include/liquid_cache/liquid_arrays.h:546-563 | the fallback keeps a value if and only if it is signed or below 2^63; from there up it takes 2^63 off |
| `Linear.LeastIsLeast` | include/liquid_cache/liquid_arrays.h:498-539 | the tracked extremes are attained and bound the valid rows |
| `Linear.SpreadIsGreatest` | include/liquid_cache/liquid_arrays.h:536-545 | a spread is the difference of two valid rows, and no two differ by more |
| `Linear.FallsBackIff` | include/liquid_cache/liquid_arrays.h:536-546 | the residuals are kept if and only if some two valid rows differ by more than the residuals of any two |
| `Linear.RowKeptIff` | include/liquid_cache/liquid_arrays.h:536-563 | by the choice of the encoder a row is kept exactly as told from the column and the line: where the line helps, when its residual does not saturate; elsewhere, when it is signed or below 2^63 |
| `Linear.LiquidLinearIntegerArray.ResidualLoop` | include/liquid_cache/liquid_arrays.h:496-544 | residuals of all rows, and the spreads that decide the fallback |
| `Linear.LiquidLinearIntegerArray.Encode` | include/liquid_cache/liquid_arrays.h:496-564 | what is stored for every row, the residual if and only if the line helps |
| `Linear.LiquidLinearIntegerArray.FromArrow` | include/liquid_cache/liquid_arrays.h:465-577 | decoding restores exactly the rows that are kept, whatever line was fitted, if and only if the bitmap is kept; which rows are kept is told by whether the line helps |
| `Linear.LiquidLinearIntegerArray.ToArrow` | include/liquid_cache/liquid_arrays.h:579-621 | the decoded column |
| `Linear.NarrowTypesKept` | include/liquid_cache/liquid_arrays.h:359-370 | every row of a type of at most 32 bits is kept |
| `Linear.WideTypeLosesRow` | include/liquid_cache/liquid_arrays.h:536-563 | whatever line was fitted, a 64-bit column of one value from 2^63 up takes the fallback and loses it |
| `Linear.RoundTrip` | include/liquid_cache/liquid_arrays.h:465-621 | exactly the kept rows come back, and the whole column if and only if the line helps and no residual saturates, or it does not help and no unsigned value reaches 2^63; all rows for types up to 32 bits; for every count at which the loops end |
| `Alp.PatchRowsExact` | include/liquid_cache/liquid_arrays.h:1017-1027 | patch rows are ascending and are exactly the rows whose value does not come back equal, as the encoder compares |
| `Alp.PatchedAt` | include/liquid_cache/liquid_arrays.h:1102-1105 | after patching, a patched row holds its patch and any other row its value |
| `Alp.IntegerRestored` | include/liquid_cache/liquid_arrays.h:1045-1100 | an offset at the width of the range gives back, in wrapping arithmetic, the filled integer of the row whose element the bulk path reads |
| `Alp.PatchesComplete` | include/liquid_cache/liquid_arrays.h:1017-1115 | integers and patches decode losslessly if and only if the integers agree with the column at the valid rows without a patch |
| `Alp.LiquidFloatArray.Integerise` | include/liquid_cache/liquid_arrays.h:1006-1043 | the integers, patched rows holding that of the first row without a patch if there is one, and the patches |
| `Alp.LiquidFloatArray.FromArrow` | include/liquid_cache/liquid_arrays.h:983-1075 | what is built holds the filled integers relative to the least of all rows, and is lossless under any codec if and only if the bitmap is kept |
| `Alp.LiquidFloatArray.ToArrow` | include/liquid_cache/liquid_arrays.h:1079-1116 | the column decoded and patched from what the bulk path sees, and its null count |
| `Alp.RoundTrip` | include/liquid_cache/liquid_arrays.h:983-1116 | every valid value comes back identical, or equal in the sense of section 5.11 of IEEE 754, even when all need patches, if and only if the rows a copy confuses decode to equal values |
| `Quantized.HandlersSoundIff` | include/liquid_cache/liquid_arrays.h:1345-1372 | the six handlers are right about a value, for every literal, if and only if it lies in the bucket |
| `Quantized.HandleDecidesIff` | include/liquid_cache/liquid_arrays.h:1345-1372 | the six handlers answer if and only if the literal is a number and, for equality, lies outside the bucket or, for an order, compares alike with both ends; and what they answer |
| `Quantized.CompareRules` | include/liquid_cache/liquid_arrays.h:1432-1443 | the operators on numbers and on NaN, of which only `not equal` is true |
| `Ieee.ComparisonRules` | include/liquid_cache/liquid_arrays.h:1345-1372 | NaN compares with nothing, zeros are equal, infinities lie beyond all numbers |
| `Quantized.LateRowIff` | include/liquid_cache/liquid_arrays.h:1391-1444 | a patched row that is also answered from its bucket is answered rightly, for every operator and literal, if and only if its patch lies in the bucket |
| `Quantized.ComputedBucket` | include/liquid_cache/liquid_arrays.h:1409-1416 | the bucket the predicate computes, for every integer, reference, shift and width, with every wrap and the cut to half the width |
| `Quantized.RowSoundIff` | include/liquid_cache/liquid_arrays.h:1345-1451 | a row is answered soundly if and only if its integer lies between the computed ends, wherever the codec tells the order of these three; in decoded values for any codec |
| `Quantized.CursorStep` | include/liquid_cache/liquid_arrays.h:1397-1407 | the cursor is at a row's patch exactly when the row is left to its patch |
| `Quantized.EvalBuckets` | include/liquid_cache/liquid_arrays.h:1391-1428 | undecided exactly when some valid row not left to a patch is; else one bit for every row |
| `Quantized.LiquidFloatQuantizedArray.ApplyPatches` | include/liquid_cache/liquid_arrays.h:1432-1444 | ORs in the comparison of every patch and changes no other bit |
| `Quantized.LiquidFloatQuantizedArray.TryEvalPredicate` | include/liquid_cache/liquid_arrays.h:1377-1451 | a mask is returned if and only if the bucket of every valid row that is not left to its patch settles the comparison; every bit of the mask, also with patches on null rows |
| `Quantized.Squeeze` | include/liquid_cache/liquid_arrays.h:1471-1511 | every row's quantum at half the width, 0 for a null row, with the same nulls and patches; nothing for narrow arrays |
| `Quantized.HalfWidth` | include/liquid_cache/liquid_arrays.h:1475-1476 | the kept bits are half the width, rounded down, and the dropped ones the rest |
| `Quantized.AnswersSoundIff` | include/liquid_cache/liquid_arrays.h:1377-1511 | whatever is asked, no row of a squeezed column is answered wrongly, if and only if every row answered from its bucket lies in it |
| `Quantized.OpenIff` | include/liquid_cache/liquid_arrays.h:1391-1428 | some valid row has no answer if and only if some valid row not left to its patch has a bucket that leaves the comparison open |
| `Quantized.ZeroReferenceInBuckets` | include/liquid_cache/liquid_arrays.h:1471-1511 | with reference 0, two spare bits and no patch on a null row every such row does |
| `Quantized.SqueezedPredicate` | include/liquid_cache/liquid_arrays.h:1377-1511 | from array to mask: returned if and only if no bucket of a valid row that is not left to its patch leaves the comparison open, with exactly the answers of the rows; right for the operator and literal if and only if each answer is, and always when the rows lie in their buckets |
| `Quantized.FilterColumn` | include/liquid_cache/liquid_arrays.h:983-1511 | from column to mask: with a zero reference, two spare bits and null slots that need no patch, the mask answers the comparison on the original values |
| `SqueezeLimits.ReferenceMisleads` | include/liquid_cache/liquid_arrays.h:1377-1511 | the column 1.6, 27.1 in tenths: equality with 1.6 is false at the row that holds it, because the reference is counted twice |
| `SqueezeLimits.CutMisleads` | include/liquid_cache/liquid_arrays.h:1377-1511 | the column -0.1, 25.4 in tenths: equality with 25.4 is false at the row that holds it, because its quantum is cut |
| `SqueezeLimits.NullPatchMisleads` | include/liquid_cache/liquid_arrays.h:1377-1511 | a column of a null row with a patch, NaN, 0 and 25.5: NaN is said to be less than 30 |
| `Fsst.PlaceInjective` | include/liquid_cache/fsst.h:292-313 | no two symbols share a slot of the lookup table |
| `Fsst.PlaceOnto` | include/liquid_cache/fsst.h:292-313 | every slot belongs to a symbol |
| `Fsst.PlaceOrder` | include/liquid_cache/fsst.h:292-313 | within one first byte, slots keep the order of the symbols |
| `Fsst.FsstCompressor.BuildLookupTable` | include/liquid_cache/fsst.h:292-313 | the 8-bit counters do not wrap; every segment starts where smaller first bytes end and holds each of its symbols once |
| `Fsst.ChooseExact` | include/liquid_cache/fsst.h:145-198 | a three-byte symbol whenever one matches, else two bytes, the lowest index; none exactly when none matches |
| `Fsst.FsstCompressor.BestSymbol` | include/liquid_cache/fsst.h:140-188 | searching one segment finds what searching all symbols would; in a table that was never built it finds nothing |
| `Fsst.FsstCompressor.Compress` | include/liquid_cache/fsst.h:134-201 | the code stream of the text, which escapes every byte when the compressor was trained on nothing |
| `Fsst.FsstCompressor.Decompress` | include/liquid_cache/fsst.h:204-228 | the text of any code stream, with stray codes and a final lone escape |
| `Fsst.CodeIsNotEscape` | include/liquid_cache/fsst.h:190-197 | no symbol code is the escape byte |
| `Fsst.DecompressCompress` | include/liquid_cache/fsst.h:134-228 | decompression undoes compression for every text and every table |
| `Fsst.CompressedSize` | include/liquid_cache/fsst.h:134-201 | compression at most doubles a text |
| `Fsst.LoadUndoesSave` | include/liquid_cache/fsst.h:231-273 | a saved table loads back, whatever bytes follow |
| `Fsst.SavedLayout` | include/liquid_cache/fsst.h:231-244 | the place of the count, of every length and of the eight bytes of every symbol |
| `Fsst.LoadedIff` | include/liquid_cache/fsst.h:247-273 | loading fails if and only if the bytes end before the last symbol that the count announces |
| `Fsst.FsstCompressor.SaveSymbolTable` | include/liquid_cache/fsst.h:231-244 | appends the saved form |
| `Fsst.FsstCompressor.LoadSymbolTable` | include/liquid_cache/fsst.h:247-273 | every success and error; the lookup table is built unless the input is empty |
| `Fsst.RoundTrip` | include/liquid_cache/fsst.h:134-273 | text survives compression and decompression with the reloaded table |
| `Offsets.ResidualRestores` | include/liquid_cache/liquid_byte_view_array.h:79-101 | a wrapped residual added to any prediction gives the offset back |
| `Offsets.PredictedFits` | include/liquid_cache/liquid_byte_view_array.h:79-80 | the prediction is the line itself wherever that fits 32 bits |
| `Offsets.Build` | include/liquid_cache/liquid_byte_view_array.h:51-94 | for any line, every offset is read back, and the width is the least of 1, 2 and 4 bytes that holds every residual |
| `Offsets.ParseUndoesPrint` | include/liquid_cache/liquid_byte_view_array.h:104-157 | slope, intercept, width and narrowed residuals parse back |
| `Offsets.PrintLayout` | include/liquid_cache/liquid_byte_view_array.h:104-127 | the place of slope, intercept, width and every residual |
| `Offsets.ParsedCount` | include/liquid_cache/liquid_byte_view_array.h:130-157 | fewer than nine bytes are refused; any width but 1 and 2 is read as 4, and bytes left over are ignored |
| `Offsets.ToBytes` | include/liquid_cache/liquid_byte_view_array.h:104-127 | the printed form |
| `Offsets.FromBytes` | include/liquid_cache/liquid_byte_view_array.h:130-157 | the parsed form, where any width but 1 and 2 is read as 4 |
| `ByteView.DistinctExact` | include/liquid_cache/liquid_byte_view_array.h:254-273 | the dictionary has no repeats and exactly the values of the valid rows |
| `ByteView.Deduplicate` | include/liquid_cache/liquid_byte_view_array.h:225-273 | the dictionary, and for every row its index cut to 16 bits |
| `ByteView.SharedPrefixLongest` | include/liquid_cache/liquid_byte_view_array.h:734-750 | a prefix of every entry, and the longest |
| `ByteView.ComputeSharedPrefix` | include/liquid_cache/liquid_byte_view_array.h:734-750 | the loops compute it |
| `ByteView.PrefixKeyDecides` | include/liquid_cache/liquid_byte_view_array.h:28-41 | different keys mean different suffixes; equal keys of up to seven bytes mean equal suffixes |
| `ByteView.PrefixKeyBytes` | include/liquid_cache/liquid_byte_view_array.h:34-39 | a key holds the first seven bytes of the suffix, zeros where it is shorter, and its length up to 255 |
| `ByteView.EntriesRestored` | include/liquid_cache/liquid_byte_view_array.h:734-808 | prefix, compressed suffixes and compact offsets decode to the dictionary, under any table and any line |
| `ByteView.RowOfKey` | include/liquid_cache/liquid_byte_view_array.h:475-503 | a row that is null or whose key names no entry is empty, any other is the entry of its key |
| `ByteViewArrays.LiquidByteViewArray.BuildEncodedDict` | include/liquid_cache/liquid_byte_view_array.h:727-808 | what is built decodes to the dictionary, holds the keys at the width of the last index, a prefix key of every suffix, the number of suffix bytes, and the given table or the one trained on the suffixes |
| `ByteViewArrays.LiquidByteViewArray.CompressSuffixes` | include/liquid_cache/liquid_byte_view_array.h:772-785 | the compressed suffixes end to end, and where each starts |
| `ByteViewArrays.LiquidByteViewArray.EnsureDictCached` | include/liquid_cache/liquid_byte_view_array.h:889-929 | the cached dictionary is the decoded one, built at most once |
| `ByteViewArrays.FlatColumn` | include/liquid_cache/liquid_byte_view_array.h:475-514 | offsets and one buffer of the rows are a column of those rows |
| `ByteViewArrays.LiquidByteViewArray.RowOffsets` | include/liquid_cache/liquid_byte_view_array.h:475-489 | the 32-bit output offsets, without wrapping below 2^31 bytes |
| `ByteViewArrays.LiquidByteViewArray.CopyRows` | include/liquid_cache/liquid_byte_view_array.h:491-503 | the output buffer is the rows end to end |
| `ByteViewArrays.LiquidByteViewArray.ToArrow` | include/liquid_cache/liquid_byte_view_array.h:461-515 | the column decoded from the keys the bulk path sees, and its null count |
| `ByteViewColumns.RestoredExactly` | include/liquid_cache/liquid_byte_view_array.h:215-515 | a column is restored if and only if it has at most 65536 distinct values and its bitmap is kept; its nulls are whenever the bitmap is |
| `ByteViewColumns.RowLost` | include/liquid_cache/liquid_byte_view_array.h:264-272 | in any larger column some row decodes to another value |
| `ByteViewColumns.SeenDecoded` | include/liquid_cache/liquid_byte_view_array.h:461-515 | what the bulk path decodes: the same nulls, and at every other row the entry of the key of the row it reads |
| `ByteViewColumns.FromArrow` | include/liquid_cache/liquid_byte_view_array.h:215-286 | the encoding of any column below 2^31 bytes, with a trained or a given compressor |
| `ByteViewColumns.FromDictArray` | include/liquid_cache/liquid_byte_view_array.h:292-378 | a row decodes to the entry at its index cut to 16 bits |
| `ByteViewColumns.DictRestoredIff` | include/liquid_cache/liquid_byte_view_array.h:292-378 | a dictionary array comes back if and only if every index that is not null names an entry that is not null and equal to the one at the index cut to 16 bits, and its other nulls are kept |
| `ByteViewColumns.RoundTrip` | include/liquid_cache/liquid_byte_view_array.h:215-515 | end to end, every null comes back, and the rows if and only if those a copy of 16-bit keys confuses are equal; it confuses none up to 2^31 rows |
| `ByteViewColumns.StoredSizes` | include/liquid_cache/liquid_byte_view_array.h:518-676 | an encoded column comes back from its bytes, whatever follows them, if and only if the sizes of its sections fit their 32-bit fields, as they do for 2^30 rows, 2^30 bytes and 65536 distinct values |
| `ByteViewColumns.StoreAndReread` | include/liquid_cache/liquid_byte_view_array.h:215-676 | encoded, serialized, reread with whatever bytes follow, decoded: every row and every null comes back |
| `ByteViewBytes.HeaderRoundTrip` | include/liquid_cache/ipc_header.h:66-115 | both headers parse back if and only if every section size fits its 32-bit field; a larger one is cut |
| `ByteViewBytes.IpcBytes` | include/liquid_cache/ipc_header.h:12-96 | the sixteen bytes of the first header, as numbers |
| `ByteViewBytes.FsstRoundTrip` | include/liquid_cache/liquid_byte_view_array.h:527-541 | the compressed section parses back |
| `ByteViewBytes.FsstLayout` | include/liquid_cache/liquid_byte_view_array.h:527-541 | the place of the saved table, of the two sizes and of the compressed bytes |
| `ByteViewBytes.PrefixKeyPlace` | include/liquid_cache/liquid_byte_view_array.h:820-828 | every prefix key takes eight bytes, the seven of the suffix and then the length |
| `ByteViewBytes.Layout` | include/liquid_cache/liquid_byte_view_array.h:557-578 | every section sits at the aligned end of the one before |
| `ByteViewBytes.ParseUndoesPrint` | include/liquid_cache/liquid_byte_view_array.h:518-676 | the serialized array parses back, whatever bytes follow |
| `ByteViewBytes.ParsesBackIff` | include/liquid_cache/liquid_byte_view_array.h:518-676 | a live array parses back to itself from its bytes, whatever follows them, if and only if the size of every section fits its 32-bit field |
| `ByteViewBytes.ParsedIsSmall` | include/liquid_cache/liquid_byte_view_array.h:586-676 | an array that comes back had sections that fit: each stage reads no fewer bytes than its part was printed in |
| `ByteViewBytes.ToBytes` | include/liquid_cache/liquid_byte_view_array.h:518-583 | the printed form, sizes cut to 32 bits |
| `ByteViewBytes.FromBytes` | include/liquid_cache/liquid_byte_view_array.h:586-676 | every success and every error of parsing |
| `ByteViewBytes.RoundTrip` | include/liquid_cache/liquid_byte_view_array.h:518-676 | a reread array decodes to the same column |
| `Budget.MemoryBudget.TryReserve` | include/liquid_cache/lru_policy.h:52-72 | succeeds exactly when the request fits, however often the swap fails spuriously |
| `Budget.MemoryBudget.Release` | include/liquid_cache/lru_policy.h:75-77 | subtracts in 64 bits |
| `Budget.MemoryBudget.TryUpdate` | include/liquid_cache/lru_policy.h:84-91 | moves the count by the difference, and fails only when growth does not fit |
| `Budget.AlwaysBalanced` | include/liquid_cache/lru_policy.h:52-77 | in every interleaving the counter is bytes granted less bytes released, in 64 bits |
| `Budget.NeverAboveLimit` | include/liquid_cache/lru_policy.h:52-77 | in every interleaving of any number of threads, used bytes stay within a fixed limit and are exact |
| `Budget.GrantExactly` | include/liquid_cache/lru_policy.h:59-71 | a grant is counted exactly if and only if the sum does not wrap |
| `Budget.RetryDecides` | include/liquid_cache/lru_policy.h:59-71 | after a load or a failed swap, unless another thread acts, the next step grants a request that fits and rejects one that does not |
| `Budget.OverflowIsGranted` | include/liquid_cache/lru_policy.h:59-71 | an interleaving in which an overflowing request is granted |
| `Lru.WithoutKeepsRest` | include/liquid_cache/lru_policy.h:162-169 | removing a key keeps all others, once each |
| `Lru.FrontedNoRepeats` | include/liquid_cache/lru_policy.h:118-130 | moving to the front keeps all keys, once each |
| `Lru.LruPolicy.NotifyInsert` | include/liquid_cache/lru_policy.h:118-130 | the key is at the front, once; list and lookup agree |
| `Lru.LruPolicy.NotifyAccess` | include/liquid_cache/lru_policy.h:134-141 | a listed key moves to the front, any other changes nothing |
| `Lru.LruPolicy.FindVictims` | include/liquid_cache/lru_policy.h:146-159 | takes the last keys off the list, from its end |
| `Lru.LruPolicy.Remove` | include/liquid_cache/lru_policy.h:162-169 | the list without the key |
| `CacheModel.Shortest` | include/liquid_cache/liquid_cache_store.h:524-545 | the fewest last keys of the list that make room |
| `CacheModel.ErasedKeys` | include/liquid_cache/liquid_cache_store.h:533-541 | erasing drops exactly the last keys of the list and changes no other entry |
| `CacheModel.EvictionNumbers` | include/liquid_cache/liquid_cache_store.h:524-530 | at most 8192 keys are erased; the list loses the erased keys and the rest of their last group of eight, as far as it reaches |
| `CacheModel.PutThenRead` | include/liquid_cache/liquid_cache_store.h:115-135 | after a successful insertion of an array of either kind its rows are what the key reads |
| `CacheModel.EntrySizes` | include/liquid_cache/liquid_cache_store.h:138-150 | an entry counts, and reads, the array of its own kind only |
| `CacheModel.BufferBytesSum` | include/liquid_cache/liquid_cache_store.h:143-147 | an Arrow array counts the sum of its buffers, absent ones as nothing |
| `CacheModel.UnlimitedPut` | include/liquid_cache/liquid_cache_store.h:520-520 | with limit 0 every insertion succeeds and evicts nothing |
| `CacheModel.MakeSpaceSucceedsIff` | include/liquid_cache/liquid_cache_store.h:519-545 | with an exact budget, every cached key listed and at most 8192 of them, room is made precisely for the requests within the limit |
| `CacheModel.MakeSpaceExactly` | include/liquid_cache/liquid_cache_store.h:519-545 | with an exact budget, over its limit or not, and a sum that fits 64 bits: succeeds if and only if the request is within the limit and some run of at most 8192 last keys of the list frees enough; erases the shortest such run, or all that may be tried; respects the limit. That the last keys are the least recently used is `CacheModel.AlwaysRecent` |
| `CacheModel.UnusedVictimsStayCached` | include/liquid_cache/liquid_cache_store.h:530-541 | delisted keys beyond the erased ones stay cached |
| `CacheModel.KeepsListedIff` | include/liquid_cache/liquid_cache_store.h:530-541 | making room leaves every cached key on the list if and only if it erases a multiple of eight keys, or the whole list |
| `CacheModel.DelistedStays` | include/liquid_cache/liquid_cache_store.h:219-292 | a cached key that is off the list stays cached, with its entry, through every run that neither writes it nor clears the cache |
| `CacheModel.StrandedKey` | include/liquid_cache/liquid_cache_store.h:219-292 | two insertions and one update under a limit of 10 leave such a key |
| `CacheModel.AlwaysListed` | include/liquid_cache/liquid_cache_store.h:219-292 | in every reachable state the list has no repeats and only cached keys |
| `CacheModel.AlwaysRecent` | include/liquid_cache/lru_policy.h:101-141 | in every reachable state the list is in order of last use: of two listed keys the one nearer the front was inserted or read later |
| `CacheModel.ListedWereUsed` | include/liquid_cache/lru_policy.h:101-141 | every listed key was inserted or read in the run |
| `CacheModel.ErasesLeastRecent` | include/liquid_cache/liquid_cache_store.h:519-545 | in every reachable state, a key that making room erases was used before every key that stays on the list |
| `CacheModel.AlwaysSubMap` | include/liquid_cache/liquid_cache_store.h:219-292 | in every reachable state every entry is the last one inserted with success, or loaded, for its key |
| `CacheModel.TotalWithout` | include/liquid_cache/liquid_cache_store.h:429-436 | the sum of sizes does not depend on the order |
| `CacheModel.AlwaysAccounted` | include/liquid_cache/liquid_cache_store.h:219-271 | in every run the budget is the sum of all sizes less the drift, in 64 bits |
| `CacheModel.CleanHasNoDrift` | include/liquid_cache/liquid_cache_store.h:219-271 | without self-eviction, loads or limit changes the drift is 0, so the budget is the sum of all sizes in 64 bits, with or without a limit |
| `CacheModel.EvictsItselfIff` | include/liquid_cache/liquid_cache_store.h:224-232 | whether a growing update evicts its own entry is known before the call: it grows within the limit, its key may be tried, neither the keys behind it nor it make room, and some more do |
| `CacheModel.CountedIff` | include/liquid_cache/liquid_cache_store.h:224-232 | a successful insertion is counted right if and only if it will not evict itself, by that test on the state before, or had no bytes |
| `CacheModel.PutExactIff` | include/liquid_cache/liquid_cache_store.h:219-271 | an insertion that will not evict itself keeps an exact budget exact if and only if its sum does not wrap |
| `CacheModel.AlwaysExact` | include/liquid_cache/liquid_cache_store.h:219-271 | in every run without self-eviction, loads or limit changes whose sums fit 64 bits, the budget is the sum of all sizes and within the limit, for every limit |
| `CacheModel.AlwaysExactIff` | include/liquid_cache/liquid_cache_store.h:219-271 | for every limit, the budget of a run without self-eviction, loads or limit changes is exact all along if and only if no sum wraps |
| `CacheModel.SmallLimitFits` | include/liquid_cache/liquid_cache_store.h:219-271 | under a limit below 2^63 the sums of such a run always fit |
| `CacheModel.WrappedSum` | include/liquid_cache/liquid_cache_store.h:519-545 | under the greatest limit two entries of 2^63 bytes are both taken and the budget says 0 |
| `CacheModel.FullCacheReached` | include/liquid_cache/liquid_cache_store.h:219-242 | two insertions that fill a cache of 10 bytes |
| `CacheModel.SelfEvictionDrifts` | include/liquid_cache/liquid_cache_store.h:224-232 | from there one update leaves 12 bytes cached under a limit of 10 |
| `Stores.LiquidCacheStore.Insert` | include/liquid_cache/liquid_cache_store.h:219-271 | the new state and result are those of the model; on success the key holds the entry and is first on the list, and every other entry left is as it was |
| `Stores.LiquidCacheStore.Replace` | include/liquid_cache/liquid_cache_store.h:224-232 | after room was made the update of the budget cannot fail, and moves the count by the difference of the sizes |
| `Stores.LiquidCacheStore.Reserve` | include/liquid_cache/liquid_cache_store.h:233-237 | after room was made the reservation cannot fail, and counts the entry |
| `Stores.LiquidCacheStore.Get` | include/liquid_cache/liquid_cache_store.h:283-292 | the rows of the entry's array, of either kind; only a read that finds something counts as a use |
| `Stores.InsertThenGet` | include/liquid_cache/liquid_cache_store.h:219-292 | what was inserted with success is read back, for both kinds of array; a refused insertion leaves the key with its old entry or none |
| `Stores.LiquidCacheStore.Clear` | include/liquid_cache/liquid_cache_store.h:438-444 | nothing cached, listed, counted or known of any file |
| `Stores.LiquidCacheStore.LoadMetadata` | src/transcoder_arrow.cpp:942-942 | the row groups of one file, and nothing else |
| `Stores.LiquidCacheStore.SetMaxCacheBytes` | include/liquid_cache/liquid_cache_store.h:198-202 | the limit is set, in the store and in its budget; entries, list and count stay |
| `Stores.LiquidCacheStore.MakeBudgetSpace` | include/liquid_cache/liquid_cache_store.h:519-545 | the nested loop over groups of eight does what the closed form of the model says |
| `Stores.LiquidCacheStore.EvictGroup` | include/liquid_cache/liquid_cache_store.h:533-542 | stops inside a group at the first victim that makes room |
| `Stores.Drive` | include/liquid_cache/liquid_cache_store.h:185-292 | any sequence of operations on the object reaches the state of the model, with all its invariants and its list in order of last use |
| `Splits.GetRowGroupsForRange` | include/liquid_cache/liquid_cache_store.h:550-563 | the row groups of the range, or none for an unknown file |
| `Splits.RowGroupsExact` | include/liquid_cache/liquid_cache_store.h:550-563 | a row group is in a split if and only if its offset is in the range, once and in order |
| `Splits.IdsWrap` | include/liquid_cache/liquid_cache_store.h:554-561 | ids are 16-bit numbers, so that past 65536 row groups they start over |
| `Splits.OverflowSelectsNothing` | include/liquid_cache/liquid_cache_store.h:554-561 | a range whose end overflows selects nothing |
| `Splits.GroupsTile` | include/liquid_cache/liquid_cache_store.h:550-563 | however a range is cut, its splits select the row groups of the whole, each once |
| `Splits.CollectBatches` | src/liquid_to_velox.cpp:824-833 | the batches of a row group up to the first missing id |
| `Splits.Merge` | src/liquid_to_velox.cpp:836-850 | pieces copied at a moving offset are the pieces end to end |
| `Splits.FirstMissingExact` | src/liquid_to_velox.cpp:824-833 | of a readable row group all batches before the first missing one are held, at most 65535 |
| `Splits.ReadReturnsCached` | src/liquid_to_velox.cpp:793-867 | a read gives, for every column, over the row groups in order, the rows of each cached batch from 0 on up to the first missing one; nothing if and only if there is no row group or column, or batch 0 of some column is missing everywhere |
| `Splits.OneBatchRead` | src/liquid_to_velox.cpp:793-867 | with one batch cached, its rows are what is read |
| `Splits.ReadSplitVelox` | src/liquid_to_velox.cpp:793-867 | the rows that were cached, column by column, or nothing when a column has no batch |
| `Splits.ReadStore` | src/liquid_to_velox.cpp:793-867 | the read as a method of the cache object: the rows that were cached; it changes nothing and counts as no use |
| `Splits.EvenIff` | src/liquid_to_velox.cpp:824-833 | two columns give equally many rows of a row group if and only if the first batch missing is the same |
| `Splits.SameStartsIff` | src/liquid_to_velox.cpp:824-833 | over any row groups, every row group starts at the same row in two columns, and they end together, if and only if the first batch missing is the same in every row group |
| `Splits.EvenReadIff` | src/liquid_to_velox.cpp:793-867 | for any split that is read: the columns agree on where every row group starts and on their length if and only if no column lacks a batch that another has |
| `Splits.EvenColumns` | src/liquid_to_velox.cpp:793-867 | over any row groups, columns that lack the same batches have equally many rows |
| `Splits.OneGroupEven` | src/liquid_to_velox.cpp:824-833 | for one row group that says when two columns are equally long |
| `Splits.RaggedRead` | src/liquid_to_velox.cpp:824-867 | after one batch of one column is evicted the read still succeeds, with a longer and a shorter column |
| `Splits.RowsTile` | src/liquid_to_velox.cpp:793-867 | the rows of adjacent splits are the rows of the single read, for every column and every cut |

## Left out

- Splits.CollectBatches: does not model the endless loop that 65536 consecutive batches of one column would cause, or a cached Arrow entry, which the original dereferences as a Liquid one; it requires neither to occur.
- Splits.ReadSplitVelox: takes the list of columns after the empty projection has been replaced by all columns; names and types of the result are not modelled.
- ByteViewColumns.FromDictArray: does not model the three index types; indices are the unsigned values the code reduces them to.
- Fsst.FsstCompressor.Decompress: does not model symbols longer than eight bytes, which a corrupt table can hold and which the original reads out of bounds.
- Quantized.Squeeze: does not model the serialized copy and the file position that a squeezed array keeps to reread the full values from disk.
- Quantized.LiquidFloatQuantizedArray.TryEvalPredicate: requires that the 32-bit size of the mask in bytes does not wrap; the original then writes past its buffer.
- Delta.RoundTrip: models signed types only, the ones the original instantiates.
- BitPacked.BitPackedArray.Pack: does not model 2^32 elements or more; the count is a 32-bit integer.
- BitPacked.BitPackedArray.BulkUnpackTo: requires that the loop of its path ends; `Unpacking.VectorLoopEndsIff` and `Unpacking.BlockedLoopEndsIff` say when, and the original never returns otherwise.
- ByteViewColumns.FromArrow: takes the flag of all-ASCII columns, a scan of the bytes, as a parameter, and does not model a given compressor that was trained on nothing and whose unset table holds a slot of 255, with which the original reads past its symbols.
- ByteViewColumns.RoundTrip: does not model columns that decode to 2^31 bytes or more, whose 32-bit offsets overflow.
- CacheModel.AlwaysExact: does not cover runs whose sum wraps in 64 bits, which takes a limit of 2^63 or more; `CacheModel.WrappedSum` is one.
- Stores.LiquidCacheStore.Get: does not model a selection mask; the filter belongs to Arrow.
- Stores.LiquidCacheStore.Insert: does not model the mutex; every method of the store runs alone. Only the budget's counter is modelled under interleaving, because it alone is lock-free.
- Stores.LiquidCacheStore.Load: models the one write that loading a file does for every batch, and nothing of Parquet reading.
- Slices of Arrow arrays: columns start at offset 0.
- The serialized forms of the primitive, linear, delta and float arrays: headers followed by the packed array, whose round trip is proved.
- The training of the symbol table, the search for exponents and the fitting of lines: their results are arbitrary parameters.
- Concrete floating-point arithmetic and rounding; both float widths are one type of real numbers, infinities, NaNs and a negative zero.
- Decimal and fixed-length arrays and the transcoder that chooses an encoding: they repeat the encodings above.
- Velox vectors, Arrow buffers, Parquet and JNI: columns and rows are sequences.
- Statistics, `contains`, `read_batch` and the memory size of an array, which is a number an entry carries.
