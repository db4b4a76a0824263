# Gray-image codecs and filters, modelled in Dafny

This project models the integer core of two image-processing homework programs.

- `HW4` holds three lossless codecs for 8-bit gray rasters:
  - run-length coding, in two variants:
    - scalar (value, count) pairs per row;
    - eight bit planes, each written as alternating run lengths in 32-bit fields of a `BitSet`;
  - Huffman coding with a tree built from a priority queue;
  - LZW with an adaptive dictionary.
- `HW-2/src/Filters.java` holds integer pixel filters:
  - bit-plane slicing and combining;
  - the histogram and cumulative sums of histogram equalization;
  - box, weighted-average, Laplacian and median neighbourhood filters.

An image is `seq<seq<int>>`, `height` rows of `width` gray levels 0..255 (`Raster.IsImage`). Its row-major stream is `Raster.Flatten`. Reading a pixel (`getRGB(x, y) & 0xFF`, or `getRed()`) is indexing that grid. Writing an output pixel through `setRGB(new Color(v, v, v))` is a store into an `array2<int>`. A Java exception becomes the `Err` case of a `Result`.

Modules:

| module | file | models |
|---|---|---|
| `RunLengthCoding` | run_length.dfy | `compressGrayscale`, `decompressGrayscale` |
| `BitSets` | bitset.dfy | the `java.util.BitSet` operations the codec uses, as a class over a set of indices |
| `BitPlaneFields` | bit_plane_fields.dfy | the 32-bit fields, the run lengths of a plane, and the decoder loop as a function |
| `BitPlaneCoding` | bit_planes.dfy | `extractBitPlanes`, `encodeBitSet`, `decodeBitSet`, `writeCountToBitSet`, `readCountFromBitSet`, `compressBitPlanes`, `decompressBitPlanes` |
| `HuffmanCoding` | huffman.dfy | `HuffmanNode` as a datatype, the frequency map, the `PriorityQueue` as a class, `generateCodes`, `encode`, `decode` |
| `Lzw` | lzw.dfy | `compress(byte[])`, `decompress(List<Integer>)` |
| `PlaneFilters` | plane_filters.dfy | `bitPlaneSlicing`, `combineBitPlanes` |
| `Histograms` | histogram.dfy | the counting and cumulative-sum passes of `globalHistogramEqualization` |
| `Windows` | window.dfy | the in-image neighbourhood windows shared by the box and median filters |
| `BoxFilter`, `WeightedFilter`, `Laplacian`, `MedianFilter` | box_filter.dfy, weighted_filter.dfy, laplacian.dfy, median_filter.dfy | the four neighbourhood filters |
| `Bits`, `JavaInt`, `Raster`, `Results` | bits.dfy, java_int.dfy, raster.dfy, results.dfy | bits of naturals, Java `int` wrap-around and truncating division, the raster, `Result` |

Loops are methods. Each method is proved against a function that states what the loop computes, and the promised properties are lemmas about those functions:

- the run list of a row is maximal and replays to the row;
- a 32-bit field reads back as the `int` written;
- the Huffman table is prefix-free, and decoding the encoding gives the input back;
- the LZW codes spell the input and decompress to it;
- each filter's output is a gray level with the stated relation to its window.

Design points that follow the code rather than a textbook:

- `smoothingBoxFilter` scans offsets from `-(maskSize / 2)` up to `+maskSize`, not up to `+maskSize / 2`. The window is lopsided towards the bottom right. `BoxFilter.BoxWindowSize` states its size away from the borders: 25 pixels for `maskSize` 3.
- `maskSize / 2` is Java's truncating division (`JavaInt.Quot`). A negative `maskSize` therefore gives an empty box window and a division by zero. A `maskSize` of -2 or less gives an empty median window and an out-of-range `get`.
- The decoder of `decompressGrayscale` writes only what the pairs say. Pixels never written stay 0. It throws `IndexOutOfBoundsException` at the missing count of an odd-length list, `IllegalArgumentException` at a non-gray value with a positive count, and `ArrayIndexOutOfBoundsException` at a write past the last row; the first pair that throws decides, and within a pair the colour is built before the store.
- `encodeBitSet` indexes its fields with a Java `int`. Field 2^26 (`MaxFields`) would start at bit 2^31, which wraps to -2^31, so a plane with more than 2^26 fields throws (its runs, plus a leading empty run when bit 0 is set).
- `combineBitPlanes` with a plane listed twice counts it twice, and a sum above 255 is refused by `new Color`.
- LZW's `decompress` casts the first code directly to a `char` without looking it up. It also removes that code from the caller's list.
- A bit-plane pixel is read from the raster's byte (`& 0xFF`). For a gray level that is the level itself.

## Model

| member | source | states |
|---|---|---|
| RunLengthCoding.CompressRow | HW4/src/RunLengthCoding.java:44-58 | the inner row loop builds exactly the run list of the row (`RowRuns`) |
| RunLengthCoding.CloseRunAt | HW4/src/RunLengthCoding.java:50-55 | a change of value after a run of `count` equal values appends the pair (value, count) to the runs so far |
| RunLengthCoding.RunsShape | HW4/src/RunLengthCoding.java:46-58 | the run list of a prefix has even length, at most one pair per value, and its last pair holds the prefix's last value |
| RunLengthCoding.RunsCounts | HW4/src/RunLengthCoding.java:46-58 | every count is at least 1 and neighbouring pairs of a row hold different values: runs are maximal |
| RunLengthCoding.RunsExpand | HW4/src/RunLengthCoding.java:43-59 | replaying the run list of a prefix gives the prefix back, so a row's counts add up to its width |
| RunLengthCoding.RowExample | HW4/src/RunLengthCoding.java:46-58 | the row 10, 10, 10, 20, 20 becomes 10, 3, 20, 2 |
| RunLengthCoding.ImageRunsShape | HW4/src/RunLengthCoding.java:43-59 | the whole list is an even-length list of pairs with positive counts |
| RunLengthCoding.ImageRunsSize | HW4/src/RunLengthCoding.java:43-63 | the list holds between one pair per row and one pair per pixel, the denominator of the compression ratio |
| RunLengthCoding.ImageRunsExpand | HW4/src/RunLengthCoding.java:43-59 | the rows' runs, concatenated, replay to the row-major stream: no run crosses a row boundary |
| RunLengthCoding.CompressGrayscale | HW4/src/RunLengthCoding.java:36-66 | the result is the rows' run lists in row order, an even-length list with positive counts that replays to the image |
| RunLengthCoding.DecompressGrayscale | HW4/src/RunLengthCoding.java:68-86 | the result is `Decompressed`, exception included; it succeeds exactly when the list is decodable, and the image is then the replay followed by zeros |
| RunLengthCoding.ReplayPairList | HW4/src/RunLengthCoding.java:72-83 | the pair loop stops with the exception `Decompressed` names, or leaves the replay of a decodable list followed by zeros |
| RunLengthCoding.ReplayPair | HW4/src/RunLengthCoding.java:72-83 | one pair is written exactly when the list up to it stays decodable; a failure is the exception of the whole decompression, and the whole list is then not decodable |
| RunLengthCoding.WriteRun | HW4/src/RunLengthCoding.java:75-82 | count copies of value are written at the cursor, which wraps to the next row at `width`; a non-gray value throws `IllegalArgumentException` before any store, otherwise a write past the last row throws `ArrayIndexOutOfBoundsException` |
| RunLengthCoding.ReplayPairsDecodable | HW4/src/RunLengthCoding.java:72-83 | an even-length list replays without an exception exactly when it is decodable, and then into its expansion |
| RunLengthCoding.ReplayPairsFailed | HW4/src/RunLengthCoding.java:72-83 | once the pairs up to some point throw, the whole list throws the same exception: later pairs are never read |
| RunLengthCoding.DecompressedDecodable | HW4/src/RunLengthCoding.java:68-86 | `decompressGrayscale` returns exactly when the list is decodable, with the replay followed by zeros |
| RunLengthCoding.MissingCount | HW4/src/RunLengthCoding.java:72-74 | a list of odd length whose pairs replay throws `IndexOutOfBoundsException` at the read of the missing count |
| RunLengthCoding.PairFails | HW4/src/RunLengthCoding.java:72-83 | a pair that throws decides the result, even when a count is missing further on |
| RunLengthCoding.ReplayNextPair | HW4/src/RunLengthCoding.java:73-82 | after replayable pairs, the next pair throws `IllegalArgumentException` for a non-gray value with a positive count, otherwise `ArrayIndexOutOfBoundsException` when its run does not fit, otherwise appends its run |
| RunLengthCoding.NextPair | HW4/src/RunLengthCoding.java:72-83 | one more pair extends the replay by its run, and decodability of the longer prefix is that of the shorter plus the pair fitting with a gray value |
| RunLengthCoding.DecodablePrefix | HW4/src/RunLengthCoding.java:72-83 | every even-length prefix of a decodable list is decodable and replays to a prefix |
| RunLengthCoding.ValuesOfGrayRows | HW4/src/RunLengthCoding.java:76 | a pair list with positive counts that replays to gray values writes only gray values, so no `Color` is refused |
| RunLengthCoding.ReplayEnd | HW4/src/RunLengthCoding.java:72-85 | after the last pair the list was decodable and the image holds its replay, then zeros |
| RunLengthCoding.ScalarRoundTrip | HW4/src/RunLengthCoding.java:36-86 | decompressing the compressed list of an image gives back every pixel in row-major order |
| BitSets.NextClearBit | HW4/src/RunLengthCoding.java:183 | `nextClearBit(i)` is the first index at or after i that is not set |
| BitSets.BitSet.constructor | HW4/src/RunLengthCoding.java:158 | a new bit set is empty |
| BitSets.BitSet.Set | HW4/src/RunLengthCoding.java:198 | `set(i)` adds i and changes nothing else |
| BitSets.BitSet.SetRange | HW4/src/RunLengthCoding.java:186 | `set(from, to)` adds the indices from..to-1 |
| BitPlaneFields.Unsigned32 | HW4/src/RunLengthCoding.java:195-202 | the 32 bits `writeCountToBitSet` writes for an `int` (two's complement) are below 2^32 and equal a non-negative count |
| BitPlaneFields.Window | HW4/src/RunLengthCoding.java:204-212 | the 32 bits `readCountFromBitSet` reads start at the given index |
| BitPlaneFields.Int32Range | HW4/src/RunLengthCoding.java:204-212 | the value assembled from 32 bits, bit 31 weighing -2^31, is a Java `int` |
| BitPlaneFields.FieldRoundTrip | HW4/src/RunLengthCoding.java:195-212 | reading back the 32 bits written for any `int` count gives that count |
| BitPlaneFields.Fields | HW4/src/RunLengthCoding.java:157-176 | `encodeBitSet` writes at least one field: the pending count is always written |
| BitPlaneFields.FieldsSum | HW4/src/RunLengthCoding.java:163-173 | the run lengths add up to `size` |
| BitPlaneFields.FieldsFirst | HW4/src/RunLengthCoding.java:159-171 | the first field is 0 exactly when bit 0 of the plane is set |
| BitPlaneFields.FieldsPositive | HW4/src/RunLengthCoding.java:165-170 | every field after the first is at least 1 |
| BitPlaneFields.FieldsParity | HW4/src/RunLengthCoding.java:159-170 | the runs alternate from `false`: the last run's bit is the parity of its position |
| BitPlaneFields.FieldsAtMostSize | HW4/src/RunLengthCoding.java:163-173 | a plane of n bits has at most n + 1 fields: one per change of bit, plus the pending count |
| BitPlaneFields.FieldsPrefixLength | HW4/src/RunLengthCoding.java:163-172 | the bits read so far never have more fields than the whole plane |
| BitPlaneFields.AlternatingFields | HW4/src/RunLengthCoding.java:163-173 | a plane starting with a set bit and changing at every bit has exactly n + 1 fields |
| BitPlaneFields.IntFieldBitsInRange | HW4/src/RunLengthCoding.java:195-202 | while the field's 32 indices stay below 2^31, the `int` indices `startIndex + i` are the plain sums |
| BitPlaneFields.FieldIndexWraps | HW4/src/RunLengthCoding.java:161-168 | the index `encodeBitSet` holds before field k, 32 * k or -2^31 for field `MaxFields`, is the Java `int` value of 32 * k |
| BitPlaneFields.ReplayFields | HW4/src/RunLengthCoding.java:181-190 | replaying the run lengths from a clear bit gives the plane back |
| BitPlaneFields.MembersOfStreamSnoc | HW4/src/RunLengthCoding.java:195-201 | writing one more field sets exactly that field's bits, 32 positions after the previous field |
| BitPlaneFields.NoBitsAfterStream | HW4/src/RunLengthCoding.java:183 | no bit is set after the last field, so the decoding loop stops there |
| BitPlaneFields.DecodeFieldsFrom | HW4/src/RunLengthCoding.java:183-190 | with a stride of one field, the decoder reads every remaining field and ends with the replayed plane |
| BitPlaneFields.PlaneRoundTrip | HW4/src/RunLengthCoding.java:157-193 | decoding, at a stride of one field, what `encodeBitSet` writes for a plane of fewer than 2^31 bits gives exactly the plane's set bits |
| BitPlaneFields.EmptyPlaneRoundTrip | HW4/src/RunLengthCoding.java:157-193 | an empty plane is written as one field 0 and decodes to no bit |
| BitPlaneFields.SetPixelWritten | HW4/src/RunLengthCoding.java:157-176 | the one-pixel plane whose pixel is set is written as the fields 0 and 1, i.e. only bit 32 |
| BitPlaneFields.WindowsOfBit32 | HW4/src/RunLengthCoding.java:204-212 | from the bit set {32}, the field at 0 reads 0 and the field at 1 reads -2^31 |
| BitPlaneFields.AsWrittenFailsOnSetPixel | HW4/src/RunLengthCoding.java:183-186 | decoding as written, with the `nextClearBit(i + 1)` stride, throws on the plane of one set pixel |
| BitPlaneFields.AsWrittenFailsOnBit32 | HW4/src/RunLengthCoding.java:183-186 | the same failure stated on the bit set {32} |
| BitPlaneFields.CorrectedDecodesSetPixel | HW4/src/RunLengthCoding.java:183-190 | with a stride of one field the same bits decode to the plane {0} |
| BitPlaneFields.SetPlaneDecodes | HW4/src/RunLengthCoding.java:183-190 | the plane [true] decodes to {0} at the stride of one field |
| BitPlaneCoding.ShiftedOne | HW4/src/RunLengthCoding.java:197 | Java's `1 << i` is 2^i, and -2^31 for i = 31 |
| BitPlaneCoding.WriteCountToBitSet | HW4/src/RunLengthCoding.java:195-202 | throws exactly when a set bit i of the count's 32 bits has a negative `int` index start + i; otherwise sets exactly the bits start + i (in `int` addition) for the set bits i, leaves the rest, and returns start + 32 wrapped |
| BitPlaneCoding.ReadCountFromBitSet | HW4/src/RunLengthCoding.java:204-212 | returns the `int` whose 32 bits are those of the set from start on |
| BitPlaneCoding.ReadStep | HW4/src/RunLengthCoding.java:207-209 | ORing `1 << i` in for a set bit adds 2^i, or -2^31 for the sign bit |
| BitPlaneCoding.EncodeBitSet | HW4/src/RunLengthCoding.java:157-176 | throws exactly when the plane has more than `MaxFields` fields, the `int` field index having wrapped to -2^31; otherwise the new bit set holds the run-length fields of the first `size` bits of the plane, one 32-bit field after the other |
| BitPlaneCoding.EncodeStep | HW4/src/RunLengthCoding.java:164-171 | one pass of the loop keeps the fields, the last bit and the wrapped field index in step with the bits read; it throws only once the bits read have more than `MaxFields` fields |
| BitPlaneCoding.WriteField | HW4/src/RunLengthCoding.java:168 | writing the next field after the written ones stores the fields with it appended and advances the wrapped index by 32; it throws exactly when `MaxFields` fields are already written |
| BitPlaneCoding.EncodeSameBit | HW4/src/RunLengthCoding.java:165-166 | a repeated bit lengthens the pending count |
| BitPlaneCoding.EncodeNewBit | HW4/src/RunLengthCoding.java:167-171 | a changed bit closes the pending count and starts a count of 1 |
| BitPlaneCoding.DecodeBitSet | HW4/src/RunLengthCoding.java:178-193 | the loop returns the bits `DecodeRuns` computes for the chosen stride, or throws where it says |
| BitPlaneCoding.DecodeRunsFails | HW4/src/RunLengthCoding.java:185-186 | a run of set bits with a negative bound or a reversed range ends the decoding with `IndexOutOfBoundsException` |
| BitPlaneCoding.DecodeRunsNext | HW4/src/RunLengthCoding.java:183-189 | otherwise decoding goes on at the next field with the run added, the index advanced by `int` addition and the bit flipped |
| BitPlaneCoding.DecodeRunsEnd | HW4/src/RunLengthCoding.java:183 | with no set bit at or after the field position, decoding stops with the bits it has |
| BitPlaneCoding.PlaneOf | HW4/src/RunLengthCoding.java:145-147 | plane b holds, for every pixel, bit b of its byte |
| BitPlaneCoding.ExtractBitPlanes | HW4/src/RunLengthCoding.java:133-155 | eight fresh, distinct bit sets; set k of plane b holds pixel k's bit b |
| BitPlaneCoding.NewPlanes | HW4/src/RunLengthCoding.java:138-141 | eight new, empty and distinct bit sets |
| BitPlaneCoding.AllPixelBits | HW4/src/RunLengthCoding.java:143-151 | once every pixel is marked, plane b holds exactly the pixels whose bit b is set |
| BitPlaneCoding.ExtractRow | HW4/src/RunLengthCoding.java:144-151 | after row y, every plane holds the bits of all pixels up to the end of that row |
| BitPlaneCoding.MarkPixel | HW4/src/RunLengthCoding.java:146-150 | the pixel's index is set in exactly the planes whose bit the pixel has |
| BitPlaneCoding.StoredPlanes | HW4/src/RunLengthCoding.java:96-100 | what is stored for plane b is the fields of plane b |
| BitPlaneCoding.CompressBitPlanes | HW4/src/RunLengthCoding.java:88-106 | the result is `CompressPlanes` of the raster's stream: the fields of the eight planes over width * height bits, or the exception of a plane with too many fields |
| BitPlaneCoding.EncodePlanes | HW4/src/RunLengthCoding.java:96-100 | the loop encodes each extracted plane in plane order; it throws exactly when some plane has more than `MaxFields` fields |
| BitPlaneCoding.EncodePlane | HW4/src/RunLengthCoding.java:97 | one plane is encoded over the stream's length; it throws exactly when the plane has more than `MaxFields` fields |
| BitPlaneCoding.ShortStreamsFit | HW4/src/RunLengthCoding.java:157-176 | a stream of fewer than `MaxFields` pixels always compresses: a plane of n bits has at most n + 1 fields |
| BitPlaneCoding.AlternatingStreamFails | HW4/src/RunLengthCoding.java:161-173 | a stream of `MaxFields` or more pixels alternating 1, 0, 1, ... (an 8192 x 8192 raster, say) makes compression throw |
| BitPlaneCoding.AlternatingBit | HW4/src/RunLengthCoding.java:145-147 | each pixel of such a stream is 0 or 1, and its bit in plane 0 is set exactly when it is 1 |
| BitPlaneCoding.DecompressBitPlanes | HW4/src/RunLengthCoding.java:108-131 | decodes the eight planes in order and ORs `1 << bit` into each pixel a plane holds; a missing or malformed plane throws |
| BitPlaneCoding.MergePlane | HW4/src/RunLengthCoding.java:114-120 | after one plane, every pixel is the value of the planes merged so far |
| BitPlaneCoding.MergeRow | HW4/src/RunLengthCoding.java:115-119 | the row's pixels take the new plane's bit and the later pixels are untouched |
| BitPlaneCoding.PixelValueSnoc | HW4/src/RunLengthCoding.java:116-117 | merging one more plane adds its bit to the pixels it holds |
| BitPlaneCoding.OrIsAdd | HW4/src/RunLengthCoding.java:117 | before plane b is merged, bit b of the pixel is clear, so the OR is an addition |
| BitPlaneCoding.DecodedPlanes | HW4/src/RunLengthCoding.java:112-113 | decoding the first planes gives one bit set per plane |
| BitPlaneCoding.PlaneFails | HW4/src/RunLengthCoding.java:112-113 | a missing plane, or one that does not decode, makes the whole decompression fail with its error |
| BitPlaneCoding.PlaneDecoded | HW4/src/RunLengthCoding.java:112-113 | a plane that decodes is appended to the planes decoded so far |
| BitPlaneCoding.PixelValueOfPlanes | HW4/src/RunLengthCoding.java:143-151 | the planes of a stream rebuild each pixel's low bits |
| BitPlaneCoding.DecodedPlanesOfPixels | HW4/src/RunLengthCoding.java:96-113 | every stored plane of a gray stream decodes to that plane |
| BitPlaneCoding.RecombinedPixel | HW4/src/RunLengthCoding.java:112-121 | ORing `1 << b` over the eight planes that hold a gray pixel gives the pixel back |
| BitPlaneCoding.BitPlaneRoundTrip | HW4/src/RunLengthCoding.java:108-131 | decompressing the stored planes (the fields of each plane) of a gray stream gives back every pixel |
| BitPlaneCoding.RasterRoundTrip | HW4/src/RunLengthCoding.java:88-131 | whenever compressing a raster by bit planes succeeds, decompressing the result gives back its row-major pixels; it succeeds for every raster of fewer than `MaxFields` pixels |
| HuffmanCoding.Leaves | HW4/src/HuffmanCoding.java:9-18 | every tree has at least one leaf symbol |
| HuffmanCoding.FrequencyTable | HW4/src/HuffmanCoding.java:49-52 | the map's keys are the input values, each mapped to its number of occurrences |
| HuffmanCoding.CountInAll | HW4/src/HuffmanCoding.java:49-52 | the frequencies of all the input's values add up to the input length |
| HuffmanCoding.NodeQueue.constructor | HW4/src/HuffmanCoding.java:53 | a new queue is empty |
| HuffmanCoding.NodeQueue.Add | HW4/src/HuffmanCoding.java:54 | `add` appends the node |
| HuffmanCoding.NodeQueue.Poll | HW4/src/HuffmanCoding.java:58-59 | `poll` returns null on an empty queue, and otherwise removes and returns a node of least frequency, ties broken arbitrarily |
| HuffmanCoding.InitialQueue | HW4/src/HuffmanCoding.java:54 | one leaf per map entry, in any order; the frequencies add up to the input length and the leaves are the distinct values |
| HuffmanCoding.LeafKeeps | HW4/src/HuffmanCoding.java:54 | adding one key's leaf moves its count and its symbol from the remaining keys to the queue |
| HuffmanCoding.MergeKeeps | HW4/src/HuffmanCoding.java:58-63 | replacing two nodes by their parent, which weighs their sum, keeps the total weight, the leaves and the weights |
| HuffmanCoding.MergeLightest | HW4/src/HuffmanCoding.java:58-63 | one merge shrinks the queue by one and keeps the invariant |
| HuffmanCoding.MergedQueue | HW4/src/HuffmanCoding.java:57-65 | when merging stops, the queue is empty exactly for empty input, and otherwise holds one node weighing the input length |
| HuffmanCoding.BuildTree | HW4/src/HuffmanCoding.java:49-65 | the root is null exactly for empty input; otherwise it weighs the input length and its leaves are the distinct values, each once, weighted by frequency |
| HuffmanCoding.Path | HW4/src/HuffmanCoding.java:100-108 | a symbol has a path exactly when a leaf holds it, and at an inner node that path is not empty |
| HuffmanCoding.CodesPath | HW4/src/HuffmanCoding.java:100-108 | the table holds a symbol exactly when a leaf does, mapped to the prefix followed by its root-to-leaf path |
| HuffmanCoding.PathsPrefixFree | HW4/src/HuffmanCoding.java:100-108 | the paths of two different symbols are not prefixes of each other |
| HuffmanCoding.CodesPrefixFree | HW4/src/HuffmanCoding.java:100-108 | the code table of any tree is prefix-free |
| HuffmanCoding.CodeTablePrefixFree | HW4/src/HuffmanCoding.java:65-69 | the table `encode` builds is prefix-free |
| HuffmanCoding.EncodedPrefix | HW4/src/HuffmanCoding.java:70-73 | the encoding of a prefix of the input is a prefix of the encoding |
| HuffmanCoding.EncodedLength | HW4/src/HuffmanCoding.java:70-73 | the encoding's length is the sum of the code lengths of the input values |
| HuffmanCoding.CodedLengthRemove | HW4/src/HuffmanCoding.java:70-73 | each symbol contributes its frequency times its code length |
| HuffmanCoding.Encode | HW4/src/HuffmanCoding.java:45-82 | the result holds the tree `BuildTree` describes, the dimensions, and the codes of the input in order |
| HuffmanCoding.Walk | HW4/src/HuffmanCoding.java:91-93 | a walk to a leaf stays within the string and consumes at least one bit from an inner node; running out is `StringIndexOutOfBoundsException` |
| HuffmanCoding.NextSymbol | HW4/src/HuffmanCoding.java:90-95 | reading one symbol from the root moves forward, strictly unless the root is a lone leaf with the empty code |
| HuffmanCoding.ReadSymbol | HW4/src/HuffmanCoding.java:91-93 | the inner loop reads the symbol `NextSymbol` describes |
| HuffmanCoding.Zeros | HW4/src/HuffmanCoding.java:87 | a new `int[n]` is n zeros |
| HuffmanCoding.Decode | HW4/src/HuffmanCoding.java:84-98 | returns or throws what `DecodeSpec` says |
| HuffmanCoding.WalkPath | HW4/src/HuffmanCoding.java:91-93 | walking along a symbol's path reaches its leaf at the end of the path |
| HuffmanCoding.NextSymbolOfCode | HW4/src/HuffmanCoding.java:90-95 | reading from the root at the start of a symbol's code yields that symbol and skips its code |
| HuffmanCoding.DecodeStep | HW4/src/HuffmanCoding.java:94-95 | a symbol read with room left in the array is written, and decoding goes on after it |
| HuffmanCoding.DecodeEnd | HW4/src/HuffmanCoding.java:90 | at the end of the bits decoding stops, the rest of the array staying zero |
| HuffmanCoding.RoundTripFrom | HW4/src/HuffmanCoding.java:84-98 | decoding from the end of the codes of the first k values writes the rest of the input |
| HuffmanCoding.RoundTrip | HW4/src/HuffmanCoding.java:45-98 | decoding the encoding gives the input back whenever every code has a bit: always with the one-bit code for a lone leaf, and as written when there are two distinct values |
| HuffmanCoding.TwoValuesNode | HW4/src/HuffmanCoding.java:57-65 | the tree of an input with two distinct values is an inner node |
| HuffmanCoding.DecodeSpecFrom | HW4/src/HuffmanCoding.java:87-90 | with an array size below 2^31, decoding starts at bit 0 with nothing written |
| HuffmanCoding.LoneSymbolAsWritten | HW4/src/HuffmanCoding.java:65-103 | as written, an input of one repeated value gets a lone leaf, the empty code and the empty encoding, and decodes to zeros |
| Lzw.Unsigned | HW4/src/LZW.java:50 | `(char) (b & 0xFF)` is in 0..255 and is b for a non-negative byte |
| Lzw.ToByte | HW4/src/LZW.java:92 | `(byte) ch` agrees with ch modulo 256 |
| Lzw.ToChar | HW4/src/LZW.java:73 | `(char) k` is in 0..65535 and is k when k is |
| Lzw.BytesOfChars | HW4/src/LZW.java:50-92 | casting back the characters read from bytes gives the bytes |
| Lzw.InitialDictionary | HW4/src/LZW.java:41-45 | the compressor starts with the 256 one-character strings, string c at code c |
| Lzw.InitialStrings | HW4/src/LZW.java:67-71 | the decompressor starts with codes 0..255, code c holding string c |
| Lzw.SeedCodes | HW4/src/LZW.java:43-45 | the seeding loop builds the initial dictionary |
| Lzw.SeedStrings | HW4/src/LZW.java:69-71 | the seeding loop builds the initial strings |
| Lzw.EncodeStep | HW4/src/LZW.java:50-57 | after a byte, every one-character string is a key and `w` is empty or a key |
| Lzw.Run | HW4/src/LZW.java:47-58 | after any input, `w` is empty or a key, so every code emitted is defined |
| Lzw.InitialTable | HW4/src/LZW.java:41-45 | the initial dictionary and its list of entries describe the same table |
| Lzw.ExtendValid | HW4/src/LZW.java:51-52 | extending `w` by a character keeps the compressor's invariant |
| Lzw.EmitValid | HW4/src/LZW.java:53-57 | emitting the code of `w` and adding `w + c` at `dictSize` keeps the invariant |
| Lzw.PendingNotEmpty | HW4/src/LZW.java:53-54 | a dictionary miss happens only with a non-empty `w` |
| Lzw.RunValid | HW4/src/LZW.java:47-58 | after any input the codes are chained and their strings followed by `w` spell the input |
| Lzw.FinishChain | HW4/src/LZW.java:60-62 | after the last byte, the codes followed by the code of `w` form a chain that spells the input |
| Lzw.CompressBounds | HW4/src/LZW.java:40-64 | empty input gives no code, other input at least one and at most one per byte; each code is below the `dictSize` of its moment; the final `dictSize` is 256 + codes - 1 |
| Lzw.CompressCovers | HW4/src/LZW.java:49-62 | the dictionary strings of the emitted codes, in order, spell the input |
| Lzw.CompressByte | HW4/src/LZW.java:50-57 | the loop body performs one `EncodeStep` |
| Lzw.Compress | HW4/src/LZW.java:40-64 | returns the codes `CompressSpec` describes |
| Lzw.DecodeStep | HW4/src/LZW.java:76-87 | an unknown code other than `dictSize` throws; otherwise the entry is appended, exactly one entry `w + entry[0]` is added at `dictSize`, and `w` becomes the entry |
| Lzw.DecodeAllGrows | HW4/src/LZW.java:75-88 | the dictionary always holds exactly the codes below `dictSize`, which grows by one per code |
| Lzw.DecodeAllErr | HW4/src/LZW.java:82 | an exception stops the loop |
| Lzw.DecodeChainStep | HW4/src/LZW.java:76-87 | reading the next code of a chain, known or the `k == dictSize` case, yields its string and adds the compressor's entry |
| Lzw.DecodeChain | HW4/src/LZW.java:73-88 | the decoder gets through a chain's codes, holding the compressor's entries |
| Lzw.DecodeWhole | HW4/src/LZW.java:73-88 | decoding a chained code list yields the concatenation of its strings |
| Lzw.RoundTrip | HW4/src/LZW.java:40-95 | `decompress(compress(data))` is data for every non-empty input |
| Lzw.CompressRepeated | HW4/src/LZW.java:49-62 | four equal bytes c compress to c, 256, c |
| Lzw.RepeatedTwo | HW4/src/LZW.java:53-57 | after the second of them the dictionary has gained "cc" at 256 |
| Lzw.FirstStep | HW4/src/LZW.java:50-52 | the first byte only sets `w` |
| Lzw.SecondStep | HW4/src/LZW.java:53-57 | the second equal byte emits c and adds "cc" at 256 |
| Lzw.RepeatedThree | HW4/src/LZW.java:51-52 | the third equal byte extends `w` to "cc" |
| Lzw.FourthStep | HW4/src/LZW.java:53-62 | the fourth emits 256, and the final `w` emits c |
| Lzw.DecompressRepeated | HW4/src/LZW.java:73-92 | c, 256, c decompresses to four bytes c, code 256 being the `k == dictSize` case |
| Lzw.SecondCode | HW4/src/LZW.java:79-80 | code 256 right after c is c followed by c |
| Lzw.ExampleAAAA | HW4/src/LZW.java:40-95 | "AAAA" compresses to 65, 256, 65, which decompresses to "AAAA" |
| Lzw.IntList.RemoveFirst | HW4/src/LZW.java:73 | `remove(0)` returns and removes the first element, and throws on an empty list |
| Lzw.WriteBytes | HW4/src/LZW.java:90-93 | every character is cast to a byte |
| Lzw.DecodeCode | HW4/src/LZW.java:76-87 | the loop body performs one `DecodeStep` |
| Lzw.Decompress | HW4/src/LZW.java:66-95 | returns or throws what `DecompressSpec` says and leaves the caller's list without its first code |
| PlaneFilters.BinaryString | HW-2/src/Filters.java:99 | `Integer.toBinaryString` writes at least one digit |
| PlaneFilters.PadLeft | HW-2/src/Filters.java:100-102 | the string keeps its characters at the end and gets '0's in front up to the length |
| PlaneFilters.BinaryDigits | HW-2/src/Filters.java:99 | the digits of `toBinaryString(n)` are the bits of n, most significant first |
| PlaneFilters.PaddedDigit | HW-2/src/Filters.java:99-104 | in the padded string of a gray value, index 7 - i holds bit i |
| PlaneFilters.PadToByte | HW-2/src/Filters.java:99-102 | the padding loop yields the eight-digit binary string |
| PlaneFilters.SliceBit | HW-2/src/Filters.java:104-108 | for `bit` in 1..8 a pixel becomes 255 when bit `bit - 1` is set and 0 otherwise; any other `bit` throws |
| PlaneFilters.SlicePixel | HW-2/src/Filters.java:98-108 | the pixel body computes `SliceValue` |
| PlaneFilters.BitPlaneSlicing | HW-2/src/Filters.java:91-113 | every pixel is sliced; the method throws exactly when `bit` is outside 1..8 |
| PlaneFilters.PlaneWeightBit | HW-2/src/Filters.java:132-141 | a listed plane in 1..8 adds 2^(bit-1) when its bit is set; any other plane throws |
| PlaneFilters.MaskInsert | HW-2/src/Filters.java:131-142 | listing one more plane adds its bit's weight |
| PlaneFilters.MaskBound | HW-2/src/Filters.java:131-142 | listed planes give at most the low bits' value, and exactly it when all are listed |
| PlaneFilters.CombineSumMasked | HW-2/src/Filters.java:130-142 | for distinct planes the loop's sum is the value of those planes |
| PlaneFilters.CombineDistinct | HW-2/src/Filters.java:130-144 | for distinct planes in 1..8 the output keeps exactly the chosen bits, and listing all of 1..8 gives the pixel back |
| PlaneFilters.DuplicatePlaneRefused | HW-2/src/Filters.java:131-144 | plane 8 listed twice on a pixel from 128 on sums to 256, which `new Color` refuses |
| PlaneFilters.CombineStep | HW-2/src/Filters.java:131-142 | one more pass adds the plane's weight or throws |
| PlaneFilters.CombineErr | HW-2/src/Filters.java:135 | once `charAt` has thrown the loop stays thrown |
| PlaneFilters.CombineBits | HW-2/src/Filters.java:130-142 | the `for (int bit : bits)` loop computes `CombineSum` |
| PlaneFilters.CombineAt | HW-2/src/Filters.java:122-144 | the pixel body pads, combines and refuses a sum above 255 |
| PlaneFilters.CombineBitPlanes | HW-2/src/Filters.java:115-150 | the method succeeds exactly when every pixel combines, storing each pixel's `CombinePixel`; otherwise it throws a pixel's error |
| Histograms.HistogramOf | HW-2/src/Filters.java:12-20 | the histogram has 256 bins |
| Histograms.CountRow | HW-2/src/Filters.java:16-19 | counting one row adds each level's occurrences in it to its bin |
| Histograms.Histogram | HW-2/src/Filters.java:12-20 | bin v holds the number of pixels of level v |
| Histograms.BinsBelow | HW-2/src/Filters.java:12-27 | the first n bins add up to the number of pixels below level n |
| Histograms.HistogramTotal | HW-2/src/Filters.java:11-20 | the bins add up to `width * height` |
| Histograms.CumulativeSums | HW-2/src/Filters.java:23-27 | entry i is the sum of bins 0..i |
| Histograms.CumulativeHistogram | HW-2/src/Filters.java:12-27 | entry i counts the pixels at level i or below; the sums never decrease and the last is the image size |
| Histograms.CountBelowMonotone | HW-2/src/Filters.java:23-27 | a higher level counts at least as many pixels |
| Windows.MinMax | HW-2/src/Filters.java:163-171 | the minimum and maximum of a window are among its values and bound them |
| Windows.SumBounds | HW-2/src/Filters.java:163-171 | the sum lies between the count times the minimum and the count times the maximum |
| Windows.QuotientBetween | HW-2/src/Filters.java:172 | a total between lo * n and hi * n has its quotient by n between lo and hi |
| Windows.MeanBounds | HW-2/src/Filters.java:163-172 | the floor mean of a window lies between its minimum and maximum |
| Windows.GrayMean | HW-2/src/Filters.java:163-173 | the floor mean of a gray window is a gray level |
| Windows.WindowCovers | HW-2/src/Filters.java:163-170 | every in-image pixel at offsets in the range is in the window |
| Windows.WindowGray | HW-2/src/Filters.java:163-170 | a window holds only gray levels |
| Windows.WindowCentre | HW-2/src/Filters.java:163-170 | a range containing 0 puts the pixel itself in the window, and an empty range gives an empty window |
| Windows.WindowRowsSize | HW-2/src/Filters.java:163-170 | rows wholly inside the image give one pixel per offset pair |
| BoxFilter.BoxDefined | HW-2/src/Filters.java:157-172 | the division is defined exactly when `maskSize >= 0`, and otherwise throws `ArithmeticException` |
| BoxFilter.BoxMean | HW-2/src/Filters.java:161-172 | for `maskSize >= 0` the output is the floor mean of the window, between its darkest and brightest pixel, so a gray level |
| BoxFilter.BoxWindowGray | HW-2/src/Filters.java:163-170 | every value of a box window is a gray level |
| BoxFilter.BoxWindowSize | HW-2/src/Filters.java:157-170 | away from the borders the window has (maskSize + maskSize / 2 + 1)^2 pixels, 25 for `maskSize` 3 |
| BoxFilter.AccumulateRow | HW-2/src/Filters.java:164-170 | the inner loop adds the row part's sum and size |
| BoxFilter.WindowRowsStep | HW-2/src/Filters.java:163-171 | one more row of offsets adds that row's sum and size |
| BoxFilter.AccumulateWindowRow | HW-2/src/Filters.java:163-171 | one pass of the outer loop takes in one row of the window |
| BoxFilter.WindowSums | HW-2/src/Filters.java:161-171 | the two loops compute the window's sum and number of pixels |
| BoxFilter.BoxPixel | HW-2/src/Filters.java:161-172 | one pixel's loops and division compute `BoxValue` |
| BoxFilter.SmoothingBoxFilter | HW-2/src/Filters.java:153-177 | every pixel is `BoxValue`; a negative `maskSize` throws at the first division |
| WeightedFilter.KernelWeight | HW-2/src/Filters.java:183-187 | every kernel weight is in 1..4 |
| WeightedFilter.RowWithin | HW-2/src/Filters.java:194-199 | a row's weighted sum lies between lo and hi times its in-image weight |
| WeightedFilter.RowsWithin | HW-2/src/Filters.java:193-200 | the weighted sum lies between lo and hi times the in-image weight |
| WeightedFilter.RowWeightAtMost | HW-2/src/Filters.java:183-187 | a kernel row's in-image weights add up to at most 8 in the middle and 4 elsewhere |
| WeightedFilter.WeightAtMost16 | HW-2/src/Filters.java:183-201 | the in-image weights add up to at most 16 |
| WeightedFilter.InteriorWeight | HW-2/src/Filters.java:183-201 | away from the border the weights add up to exactly 16 |
| WeightedFilter.WeightedGray | HW-2/src/Filters.java:191-202 | every output is a gray level |
| WeightedFilter.WeightedUniform | HW-2/src/Filters.java:191-201 | away from the border a neighbourhood of one level is left unchanged |
| WeightedFilter.WeightRowLoop | HW-2/src/Filters.java:194-199 | the inner loop adds one row's weighted pixels |
| WeightedFilter.WeightedPixel | HW-2/src/Filters.java:191-201 | one pixel's loops and division compute `WeightedValue` |
| WeightedFilter.SmoothingWeightedAverageFilter | HW-2/src/Filters.java:179-206 | every output pixel is `WeightedValue` |
| Laplacian.Clamp | HW-2/src/Filters.java:216-236 | the padding reads the nearest index inside 0 .. n - 1 |
| Laplacian.ClampGray | HW-2/src/Filters.java:259 | `Math.max(0, Math.min(255, v))` is a gray level, v itself when v is gray |
| Laplacian.PaddingReplicates | HW-2/src/Filters.java:213-236 | the padded buffer holds the image in the middle and repeats the nearest edge pixel around it, corners included |
| Laplacian.RowTerms | HW-2/src/Filters.java:240-253 | one kernel row adds its three pixels, the centre one weighted -8 |
| Laplacian.LaplacianNeighbours | HW-2/src/Filters.java:246-259 | the output is nine times the pixel minus its eight padded neighbours, clamped |
| Laplacian.LaplacianUniform | HW-2/src/Filters.java:246-260 | an image of one level is left unchanged, border included |
| Laplacian.CopyCentre | HW-2/src/Filters.java:216-220 | the first pass fills the middle of the buffer |
| Laplacian.PadEdges | HW-2/src/Filters.java:223-226 | the second pass fills the top and bottom rows |
| Laplacian.PadColumns | HW-2/src/Filters.java:227-230 | the third pass fills the left and right columns |
| Laplacian.Pad | HW-2/src/Filters.java:213-236 | every entry of the padded buffer is the image pixel at the clamped position |
| Laplacian.SharpenRowTerms | HW-2/src/Filters.java:250-253 | the inner loop adds one kernel row's response |
| Laplacian.ResponseRowStep | HW-2/src/Filters.java:251-252 | one more column adds its pixel times the filter weight |
| Laplacian.SharpenPixel | HW-2/src/Filters.java:248-259 | the kernel loops, the subtraction and the clamp compute `LaplacianValue` |
| Laplacian.SharpenAt | HW-2/src/Filters.java:247-260 | one output pixel is set and the others are left alone |
| Laplacian.SharpenRow | HW-2/src/Filters.java:247-261 | one output row is set and the others are left alone |
| Laplacian.LaplacianSharpeningFilter | HW-2/src/Filters.java:208-265 | every output pixel is `LaplacianValue` |
| MedianFilter.Insert | HW-2/src/Filters.java:321 | inserting adds one entry |
| MedianFilter.InsertSorted | HW-2/src/Filters.java:321 | inserting into a sorted list keeps it sorted and adds only the value |
| MedianFilter.SortSorted | HW-2/src/Filters.java:321 | `Collections.sort` leaves the list ascending |
| MedianFilter.SortPermutes | HW-2/src/Filters.java:321 | sorting is a permutation |
| MedianFilter.SortBelow | HW-2/src/Filters.java:321 | sorting keeps the number of entries below every level |
| MedianFilter.SortedRank | HW-2/src/Filters.java:321-322 | the entry at index k of the sorted list has at most k entries below it and more than k at or below it |
| MedianFilter.RankUnique | HW-2/src/Filters.java:322 | only one level has a given rank |
| MedianFilter.MedianOfEmpty | HW-2/src/Filters.java:322 | only the empty list has no median, and `get` then throws |
| MedianFilter.MedianOfRank | HW-2/src/Filters.java:321-322 | the median is an entry of the list and the unique level with its rank |
| MedianFilter.MedianDefined | HW-2/src/Filters.java:308-322 | the median is defined exactly when `maskSize >= -1` |
| MedianFilter.MedianRank | HW-2/src/Filters.java:312-322 | an output pixel is a gray level of its window with the median's rank |
| MedianFilter.InMedianWindow | HW-2/src/Filters.java:312-320 | every value of a median window is a gray level |
| MedianFilter.MedianUniform | HW-2/src/Filters.java:312-322 | a window of one level gives that level |
| MedianFilter.MedianWindowSize | HW-2/src/Filters.java:308-320 | away from the borders the window has (2 * (maskSize / 2) + 1)^2 pixels |
| MedianFilter.CollectRow | HW-2/src/Filters.java:314-319 | the inner loop appends the row part's in-image pixels |
| MedianFilter.MedianPixel | HW-2/src/Filters.java:312-322 | one pixel's loops, sort and middle entry compute `MedianValue` |
| MedianFilter.MedianAt | HW-2/src/Filters.java:312-323 | one pixel is set, or the call fails when `get` throws |
| MedianFilter.MedianRow | HW-2/src/Filters.java:311-324 | one row is set and the others are left alone; it fails exactly when `maskSize <= -2` |
| MedianFilter.Median | HW-2/src/Filters.java:304-327 | every pixel is `MedianValue`; a `maskSize` of -2 or less throws at the first pixel |
| Raster.FlattenLength | HW4/src/RunLengthCoding.java:41 | the row-major stream has width * height values |
| Raster.FlattenAt | HW4/src/RunLengthCoding.java:145 | pixel (x, y) is at index y * width + x |
| Raster.FlattenGray | HW4/src/RunLengthCoding.java:136 | the stream of a gray raster holds gray levels only |
| JavaInt.AddInt | HW4/src/RunLengthCoding.java:188 | Java `int` addition stays a Java `int` |
| JavaInt.AddIntWraps | HW4/src/RunLengthCoding.java:188 | that addition is the exact sum wrapped modulo 2^32 |
| JavaInt.QuotTruncates | HW-2/src/Filters.java:157 | `maskSize / 2` truncates toward zero |
| Bits.LowBitsValue | HW4/src/RunLengthCoding.java:195-212 | the n low bits of a value below 2^n read back as the value |

## Left out

- Raster access (`BufferedImage`, `getRGB`, `setRGB`, `Color`, `DataBufferByte`) is abstracted: an input image is a grid of gray levels, an output pixel is an array store. The conversion of output images to a byte-gray raster type is not modelled.
- The `LZW.compress(BufferedImage)` and `LZW.decompress(LZWResult, ...)` wrappers, `HuffmanCoding.reconstructImage` and the `RLCResult`/`BitPlaneRLCResult`/`LZWResult` holders are raster plumbing and are not modelled, apart from the lists they carry.
- Compression ratios, `calculateRMSE`, the `Math.round(255.0 * ...)` mapping of histogram equalization and `highBoostFilter` use floating point and are left out. `ImageRunsSize` states the length the ratio of the scalar codec divides by.
- `localHistogramEqualization` is left out. It repeats the histogram counting on windows and ends in the same floating-point mapping.
- Timing (`System.currentTimeMillis`) is left out.
- `HW-2/src/ImageGUI.java` and `HW4/src/Main.java` (user interface, file I/O, the driver) are not part of this model.
- `PriorityQueue` tie order and `HashMap` iteration order are not modelled: `NodeQueue.Poll` may return any node of least frequency and `InitialQueue` adds the leaves in any order. No optimality of the Huffman code is claimed.
- `HuffmanCoding.EncodedLength`: states the length as the sum, position by position, of the codes of the input values; `CodedLengthRemove` regroups it by symbol one symbol at a time rather than as a single sum over the frequency map.
- `BitPlaneCoding.CompressBitPlanes`: requires `width * height < 2^31`, as the raster's pixels sit in one `int`-indexed array, so the plane size and every run length is an `int`; `encodedPlane.length()` only feeds the floating-point ratio and is not modelled.
- `BitPlaneCoding.BitPlaneRoundTrip`: states the round trip for the stored planes of any stream below 2^31 pixels; `compressBitPlanes` produces them only when every plane has at most `MaxFields` fields (`RasterRoundTrip` and `CompressPlanes` say when), and throws otherwise.
- `BoxFilter.SmoothingBoxFilter`: requires `maskSize < Integer.MAX_VALUE`; for `Integer.MAX_VALUE` the loops `yj <= maskSize` and `xi <= maskSize` never end, and a model that returns cannot state that. `BoxFilter.BoxPixel` carries the same bound.
- `BitPlaneCoding.DecompressBitPlanes`: the model decodes each plane with the corrected stride of one 32-bit field (see Findings). `BitPlaneCoding.DecodeBitSet` also runs the stride as written.
- `Lzw.RoundTrip`: stated for non-empty input only. For empty input `compress` returns no code and `decompress` throws at `remove(0)`, as `Lzw.IntList.RemoveFirst` states.
- Java `int` overflow is modelled where the code can reach it: the run index of `decodeBitSet` and the field index of `encodeBitSet` (`JavaInt.AddInt`), and the 32-bit fields. The box filter's `x + xi` and `y + yj` can wrap for a huge `maskSize`, but a wrapped coordinate is negative and so outside the image, as the unbounded sum is. The window sums of the box, weighted and Laplacian filters are bounded by 255 times the window size; the model does not bound the image size, so it does not model a wrap of those sums.

## Findings

| source | as written | input that shows it | evidently intended | confidence | as-written member | corrected member |
|---|---|---|---|---|---|---|
| HW4/src/RunLengthCoding.java:183 | `decodeBitSet` moves to the next field with `nextClearBit(i + 1)`, not `i + 32` as the writer does | a one-pixel image whose pixel has the bit set: fields 0 and 1, so only bit 32 is set; the second read starts at bit 1, reads -2^31 and `set(0, -2^31)` throws | one 32-bit field per step, so every written plane decodes to itself | high, not executed | BitPlaneFields.AsWrittenFailsOnSetPixel | BitPlaneFields.PlaneRoundTrip |
| HW4/src/HuffmanCoding.java:100-108 | a tree that is a single leaf gives its symbol the empty code, so the encoding is empty | any image of one gray level s other than 0, e.g. two pixels of level 7 | the lone symbol gets a one-bit code and decoding gives the image back | high, not executed | HuffmanCoding.LoneSymbolAsWritten | HuffmanCoding.RoundTrip |
