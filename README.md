# KODA core in Dafny

KODA is a lossless image codec built on bit planes. A one-channel image can go through two transforms:
- It can be Gray-coded (`graycode`/`graydecode`, `nkb2gray`).
- It can be XOR-filtered: each pixel is xored with its left neighbour (`en_xor`/`de_xor`).

The image is then split into eight planes of 0/255 samples (`getBitPlane`). Each plane is coded by an adaptive run-length coder:
- The coder has six codebook types. Each type has seven buckets, selected by a unary prefix, and a payload of `data_len[i]` bits.
- `RleBuffer` packs the codewords into 32-bit words through a 64-bit accumulator. It reads them back through a 64-bit window.
- The encoder tries every type and keeps the smallest buffer.

A separate Huffman coder (`enchuf`/`dechuf`) codes byte streams:
- It builds a histogram and a tree (`BuildHuffman`).
- It gives each leaf its root path as its code (`Encode`).
- It writes a header of flags, counts, the position and length of a zero-weight marker leaf, and `(value, depth)` pairs. Then it writes the payload.
- The decoder rebuilds the tree with `build` and walks it bit by bit until it reaches the marker.

The bit files (`BitFileOut`, `BitFileIn`) pack bits into bytes, most significant bit first. `Table<T>` is the array that `enchuf` indexes by any integer, growing in both directions.

The Dafny modules follow the program:

| module | file | models |
|---|---|---|
| `Images` | images.dfy | a continuous `cv::Mat`: rows, columns, channels and the flat pixel sequence |
| `Gray` | gray.dfy | `graycode`, `graydecode`, `nkb2gray` (both versions), the loop form of `graycode` |
| `Xor` | xor.dfy | `en_xor` / `de_xor`, per row (codec.cpp) and flattened (rle.cpp) |
| `Planes` | planes.dfy | `getBitPlane`, `mergeBitPlanes` |
| `RleCodebook` | rle_codebook.dfy | `RleCodebook`, the prefix tables, the type-0 tables of rle.cpp, codewords, decoding one codeword |
| `RleStream` | rle_stream.dfy | 32-bit words as bit strings, padding |
| `RleRuns` | rle_runs.dfy | the run-length scan of a plane, its codewords, the decoder as a function |
| `RleBuffers` | rle_buffer.dfy | the class `RleBuffer` and its fields |
| `RleCodec` | rle_codec.dfy | both `rle` overloads, the older coder, the type search of `encode` |
| `BitFiles` | bitfile.dfy | `make_string`, `make_var_string`, classes `BitFileOut` and `BitFileIn` |
| `Tables` | table.dfy | class `Table<T>` |
| `Huffman` | huffman.dfy | `Node`, `BuildHuffman`, `Encode`, `build` |
| `Canonical` | canonical.dfy | `srt_cmp`, `MakeCanonical` |
| `HuffmanCodec` | huffman_codec.dfy | `compute_histogram` and the encoder body of `enchuf` |
| `HuffmanDecoder` | huffman_decoder.dfy | the decoder body of `dechuf` |
| `HuffmanRoundTrip` | huffman_roundtrip.dfy | the round trip of `enchuf` and `dechuf` |

Pixels and bytes are `bv8`. The run-length accumulator and window are `nat` fields, reduced explicitly modulo 2^64. Their bitwise operations are written out on naturals.

Two pieces are stated once, as functions of their inputs:
- the decoder is a function of the file's bits (`HuffmanDecoder.Decoded`);
- the run-length decoder is a function of the pending bits (`RleRuns.DecodeFrom`).

The methods that model the C++ loops are proved equal to those functions. The round trips are proved about the functions.

## Model

| member | source | states |
|---|---|---|
| Gray.GrayCode | src/codec.cpp:117-122 | bit k of the code is bit k xor bit k+1 of the sample for k < 7; bit 7 is kept |
| Gray.DecodeCode | src/codec.cpp:117-130 | `graydecode(graycode(b)) == b` for every byte |
| Gray.CodeDecode | src/codec.cpp:117-130 | `graycode(graydecode(g)) == g` for every byte |
| Gray.GrayBijective | src/nkb2gray.cpp:24-29 | `graycode` is injective and onto on 0..255 |
| Gray.GrayZero | src/nkb2gray.cpp:24-29 | `graycode(0) == 0` and `graydecode(0) == 0` |
| Gray.Adjacent | src/nkb2gray.cpp:78-79 | the codes of i and i+1 differ in exactly one bit |
| Gray.GrayCodeLoop | src/nkb2gray.cpp:24-29 | the seven-step xor loop computes the closed form `i ^ (i >> 1)` |
| Gray.TurnsGray | src/nkb2gray.cpp:26-27 | each step reads a bit not yet changed, so the seven steps give the closed form |
| Gray.ToGray | src/codec.cpp:132-162 | a multi-channel input gives an empty image; otherwise the result has the same size, with `graycode` or `graydecode` applied to each pixel |
| Gray.ToGrayByLoop | src/nkb2gray.cpp:31-58 | a multi-channel input gives an empty image; otherwise the result has the same size, with `graycode` applied to each pixel |
| Gray.ImageRoundTrip | src/codec.cpp:132-162 | decoding a Gray-coded image gives back the original pixels |
| Xor.UndoDiff | src/codec.cpp:552-608 | `de_xor(en_xor(img)) == img`, row by row |
| Xor.DiffUndo | src/codec.cpp:552-608 | `en_xor(de_xor(img)) == img`, row by row |
| Xor.DiffBinary | src/codec.cpp:552-579 | `en_xor` maps a plane of 0/255 samples to a plane of 0/255 samples |
| Xor.UndoBinary | src/codec.cpp:581-608 | so does `de_xor` |
| Xor.EnXorPass | src/codec.cpp:567-576 | the row loops compute the xor-with-left-neighbour differences, first pixel of each row copied |
| Xor.DeXorPass | src/codec.cpp:596-605 | the row loops, reading their own output, compute the running xor of each row |
| Xor.EnXor | src/codec.cpp:552-579 | a multi-channel input gives an empty image; otherwise a same-sized image of the row differences |
| Xor.DeXor | src/codec.cpp:581-608 | a multi-channel input gives an empty image; otherwise a same-sized image of the row-wise running xor |
| Xor.EnXorFlat | src/rle.cpp:199-226 | the older `en_xor`: the continuous image is one row, so the chain crosses row boundaries |
| Xor.DeXorFlat | src/rle.cpp:228-255 | the older `de_xor` over the same single row, undone by `UndoDiff` with the row length set to the image size |
| Planes.PlaneSample | src/bitsplit.cpp:34-36 | a plane sample is 255 exactly when the bit is set, and 0 otherwise |
| Planes.MaskTest | src/bitsplit.cpp:22 | the `1 << plane` mask test on the sample widened to an int is the bit test |
| Planes.GetBitPlane | src/bitsplit.cpp:12-41 | a multi-channel input gives an empty image; otherwise a same-sized image of 0/255 samples, where pixel x is 255 iff bit `plane` of input pixel x is set |
| Planes.MergeBitPlanes | src/codec.cpp:55-99 | anything other than eight planes gives an empty image; otherwise each pixel is packed from the eight planes, plane 7 as the most significant bit |
| Planes.GatherPlanes | src/codec.cpp:87-94 | the inner packing loop over the planes of one sample rebuilds the sample's bits |
| Planes.MergeSplit | src/codec.cpp:24-99 | `mergeBitPlanes` of the eight `getBitPlane` planes of an image is the image |
| Planes.SplitMerge | src/codec.cpp:24-99 | splitting an image into eight planes and merging them gives the same image back |
| RleCodebook.DataLens | src/codec.cpp:222-270 | the payload widths of the six types; the last bucket has 25 bits in every type |
| RleCodebook.NewCodebook | src/codec.cpp:188-281 | the constructor yields a well-formed codebook of the given type, with that type's payload widths |
| RleCodebook.AccumulateRanges | src/codec.cpp:272-280 | the range loop lays the buckets out contiguously from the widths |
| RleCodebook.RangesAt | src/codec.cpp:272-280 | `data_msk[i] = 2^data_len[i] - 1`; bucket i starts one past the capacity of the buckets before it and ends at their capacity plus its own |
| RleCodebook.LayoutContiguous | src/codec.cpp:272-280 | laid-out ranges are contiguous: `data_min[0] = 1`, `data_min[i+1] = data_max[i] + 1`, and each bucket holds exactly `2^data_len[i]` lengths |
| RleCodebook.CodebookForWellFormed | src/codec.cpp:188-281 | the codebook of every type 0..5 is well formed |
| RleCodebook.ContiguousIsLayout | src/codec.cpp:272-280 | the contiguous codebooks are exactly the layouts of their widths |
| RleCodebook.ContiguousDetermined | src/codec.cpp:272-280 | two contiguous codebooks with the same widths have the same masks and ranges |
| RleCodebook.LegacyContiguous | src/rle.cpp:20-23 | the older coder's constant tables are mutually consistent ranges |
| RleCodebook.LegacyTablesAreType0 | src/rle.cpp:20-23 | the constant tables are exactly the type-0 codebook, and `data_max[6] = 33555487` |
| RleCodebook.PrefixCode | src/codec.cpp:190-196 | the prefix of bucket i is i ones followed by a zero |
| RleCodebook.PrefixTables | src/codec.cpp:190-220 | `prefixes[i]` in `pref_len[i]` bits is the prefix code; `pref_msk[i]` selects the top `pref_len[i]` bits of a byte and `pref_res[i]` is the prefix aligned there |
| RleCodebook.PrefixMaskTable | src/rle.cpp:16-19 | the same facts for the older coder's tables |
| RleCodebook.PrefixCodesPrefixFree | src/codec.cpp:190-196 | no prefix code begins another |
| RleCodebook.BucketMatchesIff | src/codec.cpp:367-370 | the mask test on the top byte holds iff the byte starts with the bucket's prefix |
| RleCodebook.BucketMatchUnique | src/rle.cpp:16-19 | no byte matches two buckets |
| RleCodebook.BucketFrom | src/codec.cpp:388-390 | the bucket search stops at the first bucket whose upper bound admits the length, and at 7 if none does |
| RleCodebook.BucketIff | src/codec.cpp:386-403 | a run lands in bucket i exactly when `data_min[i] <= len <= data_max[i]`, so `data_max[i]` lands in i and `data_max[i]+1` in i+1 |
| RleCodebook.BucketBounds | src/codec.cpp:386-403 | the bucket chosen for a positive length starts at or below it |
| RleCodebook.RunCodeShape | src/codec.cpp:386-403 | the codeword of a run that fits is its bucket's prefix, then `len - data_min[i]` in `data_len[i]` bits: `pref_len[i] + data_len[i]` bits in all |
| RleCodebook.DecodeRunUsed | src/codec.cpp:358-384 | decoding consumes at most 32 bits |
| RleCodebook.DecodeRunLen | src/codec.cpp:358-384 | every decoded length is below 2^28, so the 32-bit arithmetic never wraps |
| RleCodebook.DecodeCodeword | src/codec.cpp:367-381 | decoding a prefix and payload gives the payload plus the bucket's minimum, and consumes exactly the codeword |
| RleCodebook.DecodeRunCode | src/codec.cpp:358-403 | decoding the codeword `add` writes for a length gives back that length and consumes exactly the codeword |
| RleRuns.Flip | src/codec.cpp:529 | `255 - s` swaps the two symbols of a 0/255 plane |
| RleRuns.ScanPositive | src/codec.cpp:516-536 | every run the scan closes is at least one pixel long, and the open run is non-empty once a pixel has been read |
| RleRuns.ScanBinary | src/codec.cpp:516-536 | on a 0/255 plane the scan remembers the first pixel, and its closed runs followed by the open run expand back to the pixels seen |
| RleRuns.RunsExpand | src/codec.cpp:498-544 | the run lengths of a 0/255 plane, expanded from its first pixel, are the plane; they sum to the pixel count; the stored first symbol is `img[0]` |
| RleRuns.DecodeStep | src/codec.cpp:481-493 | one turn of the decoder's loop writes a run of the current symbol, then continues with the other symbol |
| RleRuns.DecodeRuns | src/codec.cpp:469-496 | decoding the codewords of runs that fit gives their pixels back, whatever bits follow |
| RleRuns.RoundTrip | src/codec.cpp:469-544 | decoding the coded runs of a 0/255 plane from its first symbol gives the plane |
| RleRuns.RunsBitsLength | src/codec.cpp:386-403 | the coded runs take exactly the sum of their codeword widths |
| RleBuffers.RleBuffer.constructor | src/codec.cpp:304-308 | an empty buffer of the given codebook; the dimensions are truncated to 16 bits; the first symbol, uninitialised in C++, is 0 |
| RleBuffers.RleBuffer.SetFirstSymbol | src/codec.cpp:310-312 | sets the first symbol and nothing else |
| RleBuffers.RleBuffer.AddSymbol | src/codec.cpp:416-426 | appends the `len` bits of a `symb` that fits them, most significant first; `symb == -1`, whose 64-bit image is all ones, instead turns every bit not yet in a whole word into a one and adds `len` ones; does nothing for `len < 1`; afterwards fewer than 32 bits are pending and words are only appended |
| RleBuffers.RleBuffer.Store | src/codec.cpp:421-425 | the accumulator takes the new value and width, and `reduce` leaves the emitted words followed by that value's bits |
| RleBuffers.ShiftIn | src/codec.cpp:421-423 | shifting the 64-bit register by `len` and or-ing in `symb` appends a fitting symbol's bits, and for -1 makes every pending bit a one |
| RleBuffers.FlushOnes | src/codec.cpp:423 | or-ing the 64-bit image of -1 keeps the emitted words and turns all pending bits into ones |
| RleBuffers.RleBuffer.Reduce | src/codec.cpp:428-439 | with 32 or more bits pending, emits the oldest 32 as the next word; the bits written stay the same |
| RleBuffers.RleBuffer.Add | src/codec.cpp:386-403 | appends the run's codeword, `pref_len[i] + data_len[i]` bits; a run beyond the last bucket appends nothing; `add(0)` in a codebook with a payload in bucket 0 turns every bit not yet in a whole word, its own prefix bit included, into a one (`EmptyRunBits`) |
| RleBuffers.RleBuffer.AddCodeword | src/codec.cpp:391-392 | the prefix put followed by the payload put make up the codeword, or the all-ones bits of `add(0)` above |
| RleBuffers.CodewordWritten | src/codec.cpp:391-392 | what the two puts of bucket i leave in the stream: the codeword, or for `add(0)` with a payload in bucket 0 the all-ones bits |
| RleBuffers.EmptyRunSplice | src/codec.cpp:390-392 | `add(0)` lands in bucket 0; its prefix bit is 0 and its payload `0 - data_min[0]` is -1 |
| RleBuffers.RleBuffer.Finish | src/codec.cpp:409-413 | pads the bits written with zeros to whole 32-bit words and emits them all; the word count is the padded count |
| RleBuffers.RleBuffer.FillRead | src/codec.cpp:441-453 | loads one word when fewer than 32 window bits are left and any word is unread; the bits still to read stay the same |
| RleBuffers.RleBuffer.GetNextLength | src/codec.cpp:358-384 | returns the length of the codeword at the front of the unread bits and consumes exactly that codeword; returns 0 when no prefix matches |
| RleBuffers.RleBuffer.Consume | src/codec.cpp:370-380 | for a matched bucket: the payload, plus the bucket's minimum, is the decoded length, and the codeword is dropped |
| RleBuffers.RleBuffer.Extract | src/codec.cpp:371-376 | the payload under the bucket's mask, plus its minimum, is the decoded length of a codeword of that width |
| RleBuffers.RleBuffer.Advance | src/codec.cpp:377-379 | drops the codeword's `pref_len[i] + data_len[i]` bits from the window |
| RleBuffers.MatchPrefix | src/codec.cpp:367-381 | the first bucket whose prefix the top byte carries, or 7 if none |
| RleCodec.AsPlane | src/codec.cpp:469-496 | `rle(buf)` gives a one-channel image of the header's dimensions holding the decoded pixels, or the decoder's error |
| RleCodec.Encode | src/codec.cpp:498-544 | a multi-channel input gives an empty type-0 buffer; otherwise the buffer holds the first pixel and the padded codewords of the plane's runs; an empty plane in a type with a payload in bucket 0 is the one word of `EmptyPlaneBits`; the first symbol of an empty or multi-channel plane, uninitialised in C++, is 0 |
| RleCodec.EmptyPlaneBits | src/codec.cpp:535-538 | the word of an empty plane when bucket 0 has a payload: `1 + data_len[0]` ones, then zeros up to 32 bits |
| RleCodec.ScanPlane | src/codec.cpp:516-536 | the pixel loop adds the codeword of every run it closes, in order, and sets the first symbol |
| RleCodec.PushPixel | src/codec.cpp:521-532 | one pixel either extends the open run or closes it with `add` |
| RleCodec.AddRun | src/codec.cpp:527-528 | `add(ctr)` of a closed run, which is at least one pixel, appends its codeword |
| RleCodec.CloseStream | src/codec.cpp:535-538 | after the loop, the open run is added and the stream padded; `size()` is 4 per padded word; for an empty plane with a payload in bucket 0 the words are `EmptyPlaneBits` |
| RleCodec.EmptyClose | src/codec.cpp:535-538 | an empty plane: `add(0)` over an empty stream, padded by `finish`, is `EmptyPlaneBits` |
| RleCodec.Decode | src/codec.cpp:469-496 | `rle(buf)` is the decoder function applied to the buffer's bits, first symbol and pixel count |
| RleCodec.DecodeLoop | src/codec.cpp:481-493 | the pixel loop computes the decoder function |
| RleCodec.Turn | src/codec.cpp:482-491 | one turn reads a length and writes that many pixels; a 0 or an overlong length stops the loop with the function's error |
| RleCodec.FillRun | src/codec.cpp:487-488 | the inner loop writes `ctr` pixels of the symbol at x and nothing else |
| RleCodec.BestType | src/codec.cpp:1034-1047 | the kept type has the smallest `size()` of the six, and every lower type is strictly larger, so ties go to the lowest type |
| RleCodec.SizeOf | src/codec.cpp:1040-1041 | `rle(bp, t).size()` is 4 times the padded word count of the plane's codewords |
| RleCodec.CompressPlane | src/codec.cpp:1034-1048 | the plane coded with the chosen type, no larger than with any other type |
| RleCodec.PlaneRoundTrip | src/codec.cpp:469-544 | for every type, `rle(rle(img, t)) == img` for a one-channel 0/255 image with rows and columns below 2^16 whose runs all fit the type, and for the empty image |
| RleCodec.EncodedStream | src/codec.cpp:498-544 | the reader of an encoded buffer sees the header it wrote and the padded codewords, or `EmptyPlaneBits` for an empty plane with a payload in bucket 0 |
| RleCodec.PlaneDecodes | src/codec.cpp:469-496 | the header's dimensions give the plane's pixel count back, so decoding yields the image; an empty plane decodes to no pixels whatever its words hold |
| RleCodec.LegacyEncode | src/rle.cpp:287-333 | the older coder is the type-0 coder over its constant tables |
| RleCodec.LegacyRoundTrip | src/rle.cpp:258-333 | `rle(rle(img)) == img` for a one-channel 0/255 image with rows and columns below 2^16 and no run longer than 33555487, the empty image included |
| BitFiles.IntBits | src/huffman.h:353-359 | exactly n bits |
| BitFiles.IntBitsValue | src/huffman.h:353-359 | the bits of `make_string(v, n)` are the low n bits of v, most significant first, and v itself once it fits |
| BitFiles.MakeString | src/huffman.h:353-359 | the loop builds the n-bit string of v |
| BitFiles.NBits | src/huffman.h:363-367 | the number of bits the shift loop counts: v is below 2^n and, if positive, at or above 2^(n-1) |
| BitFiles.MakeVarString | src/huffman.h:361-371 | a five-bit count followed by v in that many bits |
| BitFiles.FieldOfString | src/huffman.h:582-588 | `read_bits(n)` over `make_string(v, n)` gives v mod 2^n and leaves what follows |
| BitFiles.VarFieldOfString | src/huffman.h:361-371 | `read_var_bits` over `make_var_string(v)` gives back v, for 0 <= v < 2^31 |
| BitFiles.PaddedBits | src/huffman.h:484-498 | shifting the partial byte up fills its low bits with zeros |
| BitFiles.BitFileOut.constructor | src/huffman.h:470-482 | a new file has no bits written |
| BitFiles.BitFileOut.Put | src/huffman.h:500-519 | `put` appends the string's bits, in order, with fewer than 8 held between calls |
| BitFiles.BitFileOut.PutBit | src/huffman.h:503-517 | one bit is appended; a full register is written out as a byte |
| BitFiles.BitFileOut.Close | src/huffman.h:484-498 | the destructor writes out a partial byte, low bits zero, only when one is held |
| BitFiles.BitFileIn.constructor | src/huffman.h:539-562 | every bit of the file is unread |
| BitFiles.BitFileIn.GetBit | src/huffman.h:570-580 | the next bit, most significant first within each byte; the throw once the bytes are exhausted |
| BitFiles.BitFileIn.ReadBits | src/huffman.h:582-588 | the next n bits as a number, or the throw when fewer are left |
| BitFiles.BitFileIn.ReadVarBits | src/huffman.h:590-593 | a five-bit count, then that many bits as a number |
| BitFiles.PutThenRead | src/huffman.h:500-519 | a value put as an n-bit string to a new file reads back as v mod 2^n |
| Tables.Table.constructor | src/table.h:78-84 | a new table has `Base() == 0` and `Summit() == -1`, and every element is `T()` |
| Tables.Table.Resize | src/table.h:25-76 | the first access sets `base` to the index; later accesses widen the window to take in the index; every element keeps its value |
| Tables.Table.Extend | src/table.h:30-56 | growing downward keeps every stored value at its index and fills the new slots with `T()` |
| Tables.Table.Enlarge | src/table.h:57-73 | growing upward keeps every stored value at its index and fills the new slots with `T()` |
| Tables.Table.Get | src/table.h:89 | `t[i]` reads element i, and afterwards `Base() <= i <= Summit()`; the first access of an empty table makes the window exactly `[i, i]`; otherwise the window grows to the least one holding the old window and i, so an index already inside leaves it unchanged |
| Tables.Table.Set | src/table.h:89 | `t[i] = v` changes element i and no other; the window is `[i, i]` after the first access and otherwise the least one holding the old window and i |
| Tables.Grow | src/table.h:36-40 | the doubling loop ends with a power of two that exceeds the needed size |
| Tables.Doubling | src/table.h:59-63 | doubling keeps `limit` a power of two |
| Huffman.Leaves | src/huffman.h:131-259 | every tree has at least one leaf |
| Huffman.InteriorCount | src/huffman.h:298-320 | a tree of n leaves has n - 1 interior nodes: n - 1 merges |
| Huffman.WeightIsLeafSum | src/huffman.h:152 | when every interior weight is the sum of its children's, the root weight is the sum of the leaf weights |
| Huffman.PermLeaves | src/huffman.h:291 | reordering the node vector keeps the bag of leaves |
| Huffman.SortDescSorted | src/huffman.h:291 | the sort leaves the vector in descending weight order, a permutation of the input |
| Huffman.InsertDescSorted | src/huffman.h:291 | one insertion keeps the order and adds exactly the one node |
| Huffman.Bubble | src/huffman.h:326-336 | the bubbling loop puts the new node in place: the vector is descending again and a permutation of the input |
| Huffman.BubbledOrder | src/huffman.h:326-336 | where the loop stops the vector is descending |
| Huffman.MergeLightest | src/huffman.h:298-320 | popping the two lightest and pushing their join shortens the vector by one, keeps the bag of leaves, and keeps it descending |
| Huffman.MergeFacts | src/huffman.h:298-320 | before the bubbling, the front is still descending and the join holds the two leaf bags |
| Huffman.BuildHuffman | src/huffman.h:281-343 | no tree exactly for an empty vector; otherwise one tree holding every input leaf exactly once, with interior weights the sums of their children |
| Huffman.CodeTable | src/huffman.h:205-210 | one entry per leaf |
| Huffman.Encode | src/huffman.h:205-253 | numbers the leaves left to right from i, adds exactly those entries, keeps every other entry, and gives `str` back as it was |
| Huffman.CodeTableAt | src/huffman.h:244-253 | entry k is leaf k's value with its root path, 0 for left and 1 for right |
| Huffman.PathLength | src/huffman.h:244-253 | a leaf's string is as long as the leaf is deep |
| Huffman.PrefixFree | src/huffman.h:244-253 | no leaf's string is a prefix of another's |
| Huffman.InteriorDepth | src/huffman.h:244-253 | below an interior root every string has at least one bit |
| Huffman.DepthBound | src/huffman.h:244-253 | no leaf lies deeper than the number of leaves less one |
| Huffman.Shape | src/huffman.h:430-453 | the decoder's tree has no weights and the same leaves |
| Huffman.PairsAt | src/enchuf.cpp:131-138 | stored pair k is leaf k's value and depth |
| Huffman.Build | src/huffman.h:430-453 | `build` yields an interior node and advances the index past at least one slot |
| Huffman.BuildInverts | src/huffman.h:430-453 | given the (value, depth) pairs of a tree in `Encode` order, `build` rebuilds that tree, without weights, and uses exactly those pairs |
| Huffman.BuildSound | src/huffman.h:430-453 | whatever `build` accepts is the pair sequence of the tree it returns |
| Huffman.ShapeCodeTable | src/huffman.h:205-253 | the weights play no part in `Encode`: the rebuilt tree gives the encoder's table |
| Canonical.Order | src/huffman.h:380-402 | the qsort order by (length, value): a ranking of all entries sorted by `srt_cmp` |
| Canonical.SortSorted | src/huffman.h:380-391 | the sort leaves the entries ordered by `srt_cmp` |
| Canonical.SortDistinct | src/huffman.h:380-402 | the sort keeps each entry once |
| Canonical.ValuesAt | src/huffman.h:404-418 | each value is the previous one plus one, shifted left by the increase in length |
| Canonical.MakeCanonical | src/huffman.h:393-421 | lengths and values unchanged; the entries in (length, value) order get consecutive values under the shift rule; under Kraft's inequality the strings are prefix-free |
| Canonical.AssignStrings | src/huffman.h:404-418 | the loop writes `make_string(v, len)` into each entry in rank order |
| Canonical.KraftPrefixFree | src/huffman.h:404-418 | strings assigned by rank under Kraft's inequality are prefix-free |
| Canonical.CanonicalPrefixFree | src/huffman.h:404-418 | strings of different rank are not prefixes of each other |
| Canonical.TreeKraft | src/huffman.h:244-253 | the lengths of a tree's table meet Kraft's inequality with equality |
| Canonical.CanonicalTree | src/huffman.h:393-421 | the canonical form of the table of a tree no deeper than 31 is prefix-free and keeps each leaf's value and depth |
| HuffmanCodec.Symbols | src/enchuf.cpp:197-221 | the values the histogram counts: bytes, or little-endian byte pairs in 16-bit mode |
| HuffmanCodec.ComputeHistogram | src/enchuf.cpp:197-221 | `hist[c]` counts the occurrences of c; in 16-bit mode an odd trailing byte becomes `last` and is not counted |
| HuffmanCodec.HistogramTotal | src/enchuf.cpp:197-221 | the counts add up to the number of values |
| HuffmanCodec.ByteHistogram | src/enchuf.cpp:197-221 | in 8-bit mode `hist[c]` is the number of occurrences of byte c, and the counts sum to the input length |
| HuffmanCodec.MakeLeaves | src/enchuf.cpp:69-78 | the leaf list: the marker `Leaf(0, -1)`, then a leaf per nonzero count weighted by it |
| HuffmanCodec.LeafListFacts | src/enchuf.cpp:69-78 | 1 to 257 leaves with distinct values, each a byte or the marker; the marker and every counted byte are among them |
| HuffmanCodec.CodedCodable | src/enchuf.cpp:67-90 | for a non-empty input the tree has two leaves or more, distinct values, the marker and every input byte |
| HuffmanCodec.Lookup | src/enchuf.cpp:92-94 | an index lookup of a stored value gives an entry with that value |
| HuffmanCodec.IndexInverts | src/enchuf.cpp:92-94 | `index[table[i].huffman_code] == i` for every entry, the marker at key -1 included |
| HuffmanCodec.MakeIndex | src/enchuf.cpp:92-94 | the loop builds the index of the table |
| HuffmanCodec.HasLongString | src/enchuf.cpp:98-103 | the loop finds out whether any string has 256 or more characters |
| HuffmanCodec.MakeFlags | src/enchuf.cpp:96-110 | the flag byte: bit 0 iff a string has length 256 or more, bit 1 iff `cnt >= 256`, bit 2 iff there is a trailing byte, bit 3 never |
| HuffmanCodec.PutHeader | src/enchuf.cpp:112-138 | the header as written: flags, optional trailing byte, `cnt - 1`, the marker's index in 32 bits, its length, then the pairs |
| HuffmanCodec.PutLeading | src/enchuf.cpp:112-129 | the leading fields in order and width |
| HuffmanCodec.PutEntries | src/enchuf.cpp:131-138 | one (value, length) pair per entry other than the marker, in table order |
| HuffmanCodec.PutPayload | src/enchuf.cpp:140-157 | each input byte's string, in input order |
| HuffmanCodec.EncHuf | src/enchuf.cpp:57-159 | an empty input writes nothing; otherwise the bytes hold the header, the payload and the marker's string, zero-padded to a byte |
| HuffmanCodec.PutTree | src/enchuf.cpp:69-158 | from the histogram on, the tree built matches the histogram and all of the coded stream is written |
| HuffmanCodec.PutAll | src/enchuf.cpp:80-158 | header, payload and marker string, for the tree given |
| HuffmanCodec.EncodeAll | src/enchuf.cpp:83-84 | `Encode(root, 0, "", table)` fills the table with the tree's code table |
| HuffmanCodec.MakeTables | src/enchuf.cpp:80-94 | the code table and its index |
| HuffmanCodec.Tree | src/enchuf.cpp:80-82 | `BuildHuffman` of the leaf list yields a tree whose leaves are that list |
| HuffmanCodec.Finish | src/huffman.h:484-498 | closing the output pads the last byte with zeros |
| HuffmanDecoder.Read | src/huffman.h:582-588 | the next n bits, or "not a huffman encoded file" once the file runs out |
| HuffmanDecoder.ReadLast | src/dechuf.cpp:58-60 | only when bit 2 is set is a trailing byte read; otherwise it is -1 and nothing is consumed |
| HuffmanDecoder.Slots | src/dechuf.cpp:69-76 | the slot array: the marker at its stored index with its length, and every other slot empty |
| HuffmanDecoder.Fill | src/dechuf.cpp:79-87 | the pair loop keeps the slot array's size; it runs past the array only as an error |
| HuffmanDecoder.Emit | src/dechuf.cpp:108-109 | one value written per leaf reached: a byte, or two in 16-bit mode |
| HuffmanDecoder.Walk | src/dechuf.cpp:94-113 | the only error of the walk is the throw for running out of bits |
| HuffmanDecoder.WalkPath | src/dechuf.cpp:94-113 | following a leaf's path emits its value and restarts at the root; the marker's path ends the walk |
| HuffmanDecoder.Take | src/huffman.h:582-588 | `read_bits` on the open file is the `Read` of its unread bits |
| HuffmanDecoder.TakeFields | src/dechuf.cpp:55-65 | the leading reads: flags, trailing byte, count, marker's slot |
| HuffmanDecoder.TakeLast | src/dechuf.cpp:58-60 | the trailing byte read when bit 2 is set |
| HuffmanDecoder.TakePlaces | src/dechuf.cpp:62-65 | `cnt = read_bits(8 or 16) + 1`, then the marker's slot in 32 bits |
| HuffmanDecoder.TakePairs | src/dechuf.cpp:79-87 | the pair loop on the array computes `Fill` |
| HuffmanDecoder.TakePair | src/dechuf.cpp:80-86 | one turn skips the marker's slot and stores a (value, depth) pair |
| HuffmanDecoder.TakeWalk | src/dechuf.cpp:94-113 | the walking loop computes `Walk` |
| HuffmanDecoder.TakeBody | src/dechuf.cpp:69-118 | everything after the leading fields computes `DecodeBody` |
| HuffmanDecoder.TakeSlots | src/dechuf.cpp:79-118 | the pairs, `build`, the walk and the trailing byte |
| HuffmanDecoder.DecHuf | src/dechuf.cpp:52-125 | the decoder's `main` on the file's bytes gives the output bytes, or the message it ends with |
| HuffmanRoundTrip.FillFrom | src/dechuf.cpp:79-87 | the pair loop over the pairs the encoder wrote skips the marker's slot and puts every other entry in the slot where the encoder had it |
| HuffmanRoundTrip.FieldsOf | src/dechuf.cpp:55-65 | the leading fields are read in the order and widths the encoder wrote them |
| HuffmanRoundTrip.TableOfTree | src/enchuf.cpp:80-138 | the table of the encoder's tree fits the header: distinct values, the marker found, every input byte coded |
| HuffmanRoundTrip.WalkPayload | src/dechuf.cpp:94-113 | walking the payload and the marker's string over the rebuilt tree gives back the input |
| HuffmanRoundTrip.BodyOf | src/dechuf.cpp:69-118 | everything after the leading fields decodes to the input |
| HuffmanRoundTrip.RoundTrip | src/enchuf.cpp:67-158 | decoding the encoder's bytes gives back the non-empty input |
| HuffmanRoundTrip.EncodeDecode | src/dechuf.cpp:52-119 | `dechuf(enchuf(input)) == input` for every 8-bit input, the empty one included |

## Left out

- File and console I/O are not modelled: the CLI `main` functions, option parsing, file opening, `clock()` timing, `print_stats`, and the "Block too big!" and size printouts. A file is a byte sequence given as a parameter or returned.
- OpenCV image I/O and colour conversion, `split.cpp`, the Bayer split and merge, and `analyze.cpp` are not part of this model. They call a foreign library or only report.
- `RleBuffer::saveToFile`/`loadFromFile` and the raw temp files are not modelled. They copy a padded C++ struct, so their byte layout depends on the platform.
- Only continuous images are modelled, as one flat pixel sequence. The encoder's `ctr` carrying over between rows of a non-continuous image is not modelled.
- Huffman 16-bit mode appears only in the histogram, the decoder and the flag tests. The encoder, like the C++ entry points, runs with `bits16` false. The encoder's branch that omits the count field when `cnt == 0` is modelled (`Leading`, `PutLeading`), but a non-empty input always has at least one entry besides the marker (`cnt >= 1`), so it is never taken.
- The copies of `compute_histogram`, `enchuf` and `dechuf` at src/codec.cpp:700-942 are the same code as enchuf.cpp and dechuf.cpp, so they are modelled once.
- `std::sort` with `NodeCompare` and `qsort` with `srt_cmp` are library sorts. Each is modelled by an insertion sort, which is one of the orders the library may produce. Ties may therefore come out in a different order than the library's.
- `Huffman.BuildHuffman`: the node vector is a `seq` value, not a heap-allocated vector updated in place. Heap allocation and deletion are not modelled.
- `Huffman.Build`: `build` is a recursive function returning the tree and the next index. Reading past the stored pairs, and recursing without end on a slot shallower than the current depth, are undefined behaviour in C++; they are error results here.
- `HuffmanDecoder.Fill`: a pair that would land past the slot array, and a marker slot beyond it, are memory errors in C++ and error results here. Slots never written hold value 0 and depth 0, where the C++ array is uninitialised.
- `HuffmanDecoder.Walk`: `Decend` returning NULL cannot happen on a tree that `build` returns, so the NULL branch is not modelled.
- `HuffmanDecoder.DecHuf`: output written before a decoding error is not returned with the error.
- `HuffmanDecoder.Read`: a field is read as an unbounded natural. For the 32-bit marker slot the C++ `int` goes negative from 2^31 on; such a slot lies outside the slot array either way, and is an error here.
- `Canonical.MakeCanonical` is modelled although nothing calls it. Strings are limited to 31 characters, so that `make_string`'s shifts stay inside the C++ `int`. That limit alone does not keep the running value `v` inside the `int`: when the lengths break Kraft's inequality (three strings of length 1, then one of length 31, give `v = 3 << 30`) it overflows in C++. The model keeps `v` unbounded; the low bits `IntBits` takes from it are the ones a wrapping shift would leave.
- `BitFiles.MakeString` requires `len <= 32`, the width of the C++ `int` the loop shifts.
- `BitFiles.MakeVarString` requires `0 <= v < 2^31`, the width of a non-negative `int`; the count loop does not end for negative values.
- `Planes.GetBitPlane` requires `plane < 31`, because a larger shift of the C++ `int` mask is undefined behaviour.
- `Planes.MergeBitPlanes` requires eight one-channel planes of the same size when there are eight. The C++ code reads past shorter planes.
- `Xor.EnXor`, `Xor.DeXor`, `Xor.EnXorFlat` and `Xor.DeXorFlat` require an image whose pixel count is rows times columns (`WellSized`), which a `cv::Mat` always is.
- `RleBuffers.RleBuffer.GetNextLength`: the promise that exactly the codeword is consumed holds when the window count has not wrapped. A codeword that runs past the end of the stream makes the unsigned 64-bit count wrap; the model computes that wrap and states only bounds for it.
- `RleBuffers.RleBuffer.AddSymbol`: a negative symbol is or-ed in as its 64-bit two's complement, as in C++. The contract states the result only for `symb == -1`, the one negative symbol the encoder produces (from `add(0)`); other negative symbols are computed but not described.
- `RleBuffers.RleBuffer.Add`: for `len < 0` the codeword is computed but not described; the encoder never adds a negative run.
- `RleCodec.Encode`: `ctr` is a `uint32_t` passed to `add(int len)`, so a run of 2^31 pixels or more turns negative in C++ and lands in bucket 0. The model passes the run unconverted, and `add` writes nothing for it. No codebook has a codeword for such a run either way.
- `HuffmanCodec.ComputeHistogram`: the counts are unbounded naturals. The C++ `int` counts overflow from 2^31 occurrences of one value on.
- `HuffmanCodec.EncHuf`: `input_count` and the node weights are C++ `int`s. For an input of 2^31 bytes or more the `input_count > 0` test sees the file size truncated to 32 bits, and weight sums can overflow. The model's counts and weights are unbounded, and it codes an input of any length.
- `RleCodec.Decode`: the C++ loop never ends when `getNextLength` returns 0, and writes past the image when a run is too long. These are the errors `Stalled` and `Overrun` here.
- `RleCodec.PlaneRoundTrip` requires every run to fit the last bucket of the type; a longer run is dropped by `add`, so the round trip fails for it.
- `RleCodec.PlaneRoundTrip` and `RleCodec.LegacyRoundTrip` also require fewer than 2^16 rows and columns. The header stores width and height as `uint16_t`, so the source truncates larger dimensions (a plane of 65536 columns comes back with 0 columns) and its own round trip fails there.
- `RleCodec.Encode`, `RleCodec.Decode`, `RleCodec.PlaneRoundTrip`, `RleCodec.LegacyRoundTrip`, `Gray.ToGray`, `Gray.ToGrayByLoop`, `Planes.GetBitPlane` and `Planes.MergeBitPlanes`: the C++ pixel loops flatten a continuous image with `size.width *= size.height` on `int`s, which overflows from 2^31 pixels on (for example a 46341 x 46341 plane); on usual targets the count wraps negative and the loop runs no pixel. The model's pixel count is unbounded and every pixel is processed, so for such images it promises results (including the round trips) that the C++ code does not deliver.
- `RleBuffers.RleBuffer.constructor` and `RleCodec.Encode`: the C++ header's `first_symbol` is never initialised by the constructor, so it is indeterminate for an empty plane (where `setFirstSymbol` is never reached) and for the multi-channel `RleBuffer(0, 0)`. The model sets that byte to 0. No decode depends on it: both buffers describe zero pixels, and decoding them writes none.
- `Tables.Table`: the `Table<Encoding>` and `Table<int>` of the encoder's `main` are modelled as maps there (`HuffmanCodec`). The class models `Table<T>` itself.
- The signed `char big` of the encoder is modelled as an unsigned byte; only its low four bits are ever set.
