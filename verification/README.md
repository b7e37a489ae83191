# ematix-parquet: verified decode pipeline

A Dafny model of the part of ematix-parquet that turns packed bytes into indices, values and bitmaps,
of the encoder and small self-contained cores beside it, and proofs of what each of them promises.

`dafny verify dfyconfig.toml` checks the whole project.

## What is modelled

- **Bits and bytes.** `Bits` fixes the one positional meaning of a packed byte string: value `i` is bits
  `[i*bw, (i+1)*bw)`, least significant bit first. Registers are naturals with explicit truncation.
  `Wire` is the byte cursor with its LEB128 and zigzag readers, a class whose position moves.
- **Bit-unpacking.** `Bitpack` has the scalar unpackers (a 32-value window loop, a streaming buffer and
  their fused dictionary lookups). `VectorKernels` describes every AVX2 and NEON kernel by its table
  (offsets, shuffles, shifts, mask) over intrinsics modelled on byte sequences, with the guards that say
  how many blocks may be loaded. All are proved against the positional meaning.
- **RLE/bit-packed hybrid streams.** `DictStream` says what a stream means and how its readings relate;
  `DictDecode`, `Gather` and `PredicateBitmap` are the four walkers; `Adaptive` runs a chunk either way.
  `Rle` and `Packing` are the encoder and the generic reader, with the round trip.
- **Delta encodings.** `DeltaStream` is the meaning (increments and running sums in two's complement),
  `DeltaDecode` the loops with their wrapping accumulators, `DeltaArrays` the nested byte-array formats,
  `DeltaFormat` the layout written out, as the partner the decoders are inverse to.
- **Levels.** `Levels` proves the stack machine over a flattened schema equal to the tree recursion;
  `LevelStreams` the level prefixes and the path that skips them.
- **Self-contained cores.** `Lz4` (block size walk), `Bloom` (split-block filter), `ByteArrays` (rows and
  Arrow-style offsets), `JsonText`, `Extension`, `JsonParser`, `JsonDocument` and `KeyMetadata` (the Iceberg extension, its
  printer, its lenient parser and its wrapper), `Pruning` (conservative file pruning).

An appended-to vector is an in- and an out-parameter (`out0`, `out`); contracts say what was appended and
that earlier elements stay. Errors are values; their message texts are not modelled. CPU dispatch and the
floating-point selectivity comparison are Boolean parameters, so the proofs hold for either outcome.

## Findings

Places where the code does less than one would expect are stated exactly rather than excluded.

- The fused dictionary decoder checks a repeated index before it knows whether any row needs it, so an
  empty RLE run can fail a page that two-pass decoding accepts. `DictStream.FusedSucceedsExactly` is the
  exact condition and `DictStream.EmptyRunRefusedOnlyWhenFused` a page.
- The generic reader in `rle.rs` accepts widths up to 64, but at 59, 61, 62 and 63 bits some values need a
  nine-byte window and its shift by 64 overflows. The reader returns what the stream stands for if and
  only if no value it gets to is one of those: `Rle.DecodeRleBitPacked`, in closed form
  `Rle.WindowsFitExactly`; `Rle.SecondWideValueOverflows` is a stream.
- The NEON guards of widths 5 and 21 keep blocks that load past the buffer, by up to 6 and 4 bytes.
  `VectorKernels.NeonLoadsExactly` is the exact condition and `VectorKernels.NeonOverreads` an input for each.
- The printer writes control characters the parser refuses, and the parser turns bytes above 0x7F after
  an escape into two: `Extension.FromJsonOfToJson` gives the result for every extension and
  `Extension.RoundTripExactly` the condition for a round trip; `Extension.ControlCharacterRefused` and
  `Extension.AccentAfterEscapeMangled` are a string for each.
- The documented layout of a chunk bitmap (row `8k+i` is bit `i` of byte `k`) holds on given row counts if and
  only if each page has a multiple of eight rows or is followed by none: `Adaptive.LayoutExactly`, with a
  chunk where it fails in `Adaptive.LayoutBreaks`.
- The two output shapes of the adaptive runner do not fail together: `Adaptive.ValuesSucceedExactly` says when
  the values exist where the bitmap does, and `Adaptive.FusedWhereValuesFail` is a chunk where they do not.
- The offsets reader takes from a PLAIN page only as many values as the page says; the row reader takes all.
  `ByteArrays.OffsetsReaderExactly` and `ByteArrays.PlainPageExactly` say what follows, with a page for each
  direction in `ByteArrays.OverfullPageDiffers` and `ByteArrays.TrailingByteDiffers`. Over whole runs
  `ByteArrays.ReadersAgreeExactly` is the exact condition, for all row counts at once: for a single one the
  difference can stay hidden, as in `ByteArrays.OverfullPageHidden`.

## Model

| member | source | states |
|---|---|---|
| `Wire.Cursor.ReadUvarint` | crates/ematix-parquet-format/src/compact.rs:68-80 | the varint loop returns the little-endian base-128 number of at most ten bytes, kept in 64 bits, and moves just past it; a tenth continuation byte and a short buffer are the two errors |
| `Wire.UvarintStep` | crates/ematix-parquet-format/src/compact.rs:71-77 | one turn of the varint loop: OR-ing group `i` into the register keeps the rest of the number readable, and only the tenth group can lose bits |
| `Wire.Cursor.ReadU8` | crates/ematix-parquet-format/src/compact.rs:35-45 | the next byte, or the error of an empty cursor with the position unchanged |
| `Wire.Cursor.Take` | crates/ematix-parquet-format/src/compact.rs:48-58 | exactly the next `n` bytes, or an error that leaves the position alone |
| `Wire.Cursor.ReadZigzagI32` | crates/ematix-parquet-format/src/compact.rs:84-87 | the zigzag value of the low 32 bits of a varint |
| `Wire.Cursor.ReadZigzagI64` | crates/ematix-parquet-format/src/compact.rs:90-93 | the zigzag value of a 64-bit varint |
| `Wire.ZigzagRoundTrip` | crates/ematix-parquet-format/src/compact.rs:84-93 | zigzag coding is a bijection between the integers and the naturals |
| `Wire.ZigzagMeaning` | crates/ematix-parquet-format/src/compact.rs:84-93 | even numbers stand for the naturals in order, odd ones for the negative numbers |
| `Wire.UvarintMeaning` | crates/ematix-parquet-format/src/compact.rs:68-80 | one to ten groups of seven bits, redundant ones included, are read as their base-128 number kept in 64 bits |
| `Wire.UvarintErrors` | crates/ematix-parquet-format/src/compact.rs:68-80 | ten continuation bytes are an overflow, fewer at the end of the buffer a missing byte |
| `Bits.UnpackedAt` | crates/ematix-parquet-codec/src/bitpack.rs:664-730 | the positional meaning all unpackers are proved against: value `i` is bits `[i*bw, (i+1)*bw)` |
| `Bits.AsrLane` | crates/ematix-parquet-codec/src/bitpack_neon.rs:89-123 | an arithmetic right shift of a lane differs from a logical one only in the top bits it shifts in |
| `Bitpack.WindowWidth` | crates/ematix-parquet-codec/src/bitpack.rs:691-698 | a byte window never exceeds 40 bits in the 64-bit register or 72 in the 128-bit one |
| `Bitpack.ReadWindow` | crates/ematix-parquet-codec/src/bitpack.rs:690-700 | the smallest covering byte window, shifted and masked, is the wanted bit field, with no bit lost at the top of the register and no byte read outside the chunk |
| `Bitpack.Refill` | crates/ematix-parquet-codec/src/bitpack.rs:714-718 | the streaming buffer stays below `bw + 8` bits and always holds the next bits of the input |
| `Bitpack.Pop` | crates/ematix-parquet-codec/src/bitpack.rs:722-726 | mask and shift split the buffer into the next value and the bits kept |
| `Bitpack.StreamUnpack` | crates/ematix-parquet-codec/src/bitpack_avx2.rs:1389-1408 | the streaming unpacker appends exactly the positional values, reading only inside its input |
| `Bitpack.UnpackChunk` | crates/ematix-parquet-codec/src/bitpack.rs:688-703 | the 32-value window loop appends the chunk's positional values |
| `Bitpack.UnpackChunksIndices` | crates/ematix-parquet-codec/src/bitpack.rs:664-730 | window loop and streaming tail agree at the seam: together they give the positional values at every width up to 32 (64-bit register) and 64 (128-bit register) |
| `Bitpack.PeelChunk` | crates/ematix-parquet-codec/src/bitpack.rs:688-703 | what is left of a packed run is its next 32-value chunk followed by the rest |
| `Bitpack.UnpackIndicesInto` | crates/ematix-parquet-codec/src/bitpack.rs:253-540 | too wide is an error that appends nothing; otherwise the positional values are appended, zeros at width 0 |
| `Bitpack.LookupAllMeaning` | crates/ematix-parquet-codec/src/dict.rs:960-974 | a lookup succeeds exactly when every index is inside the dictionary, and then row `k` is `dict[idx[k]]` |
| `Bitpack.LookupFailsAt` | crates/ematix-parquet-codec/src/dict.rs:960-974 | a failed lookup names the first index outside the dictionary |
| `Bitpack.LookupAppend` | crates/ematix-parquet-codec/src/dict.rs:960-974 | looking up two lists one after the other is looking up their concatenation, first error included |
| `Bitpack.LookupDict` | crates/ematix-parquet-codec/src/dict.rs:960-974 | the lookup loop computes that lookup, error included |
| `Bitpack.LookupChunk` | crates/ematix-parquet-codec/src/bitpack.rs:578-626 | a fused 32-value chunk equals unpacking, then looking up; with `bounds_safe` the skipped check could not fire |
| `Bitpack.LookupTail` | crates/ematix-parquet-codec/src/bitpack.rs:628-660 | the fused streaming tail equals unpacking, then looking up |
| `Bitpack.UnpackChunks` | crates/ematix-parquet-codec/src/bitpack.rs:546-660 | the fused unpacker equals unpacking, then looking up, with the same first error |
| `Bitpack.UnpackLookupInto` | crates/ematix-parquet-codec/src/bitpack.rs:33-60 | the entry point fails exactly when some unpacked index is outside the dictionary, or the width is above 32 |
| `Bitpack.BoundsSafeIsJustified` | crates/ematix-parquet-codec/src/bitpack.rs:546-560 | a dictionary larger than the width's largest value makes every lookup succeed |
| `VectorKernels.Avx2TablesOk` | crates/ematix-parquet-codec/src/bitpack_avx2.rs:32-4040 | for every width 1 to 32, every lane of the AVX2 table reads whole bytes that contain its value |
| `VectorKernels.NeonTablesOk` | crates/ematix-parquet-codec/src/bitpack_neon.rs:39-4863 | the same for the NEON tables, 16-bit lanes at widths 5 and 12 included |
| `VectorKernels.WindowLane` | crates/ematix-parquet-codec/src/bitpack_neon.rs:854-884 | a window shifted logically or arithmetically, then masked, is the bit field it holds |
| `VectorKernels.Srli16Mask` | crates/ematix-parquet-codec/src/bitpack_avx2.rs:1508-1560 | shifting bytes as 16-bit words and masking equals shifting each byte alone |
| `VectorKernels.NibbleLane` | crates/ematix-parquet-codec/src/bitpack_avx2.rs:1508-1560 | lane `l` of the interleaved 4-bit block is value `l` |
| `VectorKernels.PairLane` | crates/ematix-parquet-codec/src/bitpack_avx2.rs:1990-2040 | lane `l` of the twice-interleaved 2-bit block is value `l` |
| `VectorKernels.BitLane` | crates/ematix-parquet-codec/src/bitpack_avx2.rs:2153-2185 | the broadcast, AND, compare lane is the bit itself |
| `VectorKernels.LaneCorrect` | crates/ematix-parquet-codec/src/bitpack_avx2.rs:32-4040 | every lane of every well-formed kernel, signed shift or not, holds its positional value |
| `VectorKernels.RunBlock` | crates/ematix-parquet-codec/src/bitpack_avx2.rs:422-465 | one block appends the positional values of its lanes |
| `VectorKernels.RunKernel` | crates/ematix-parquet-codec/src/bitpack_avx2.rs:278-313 | the block loop appends the positional values of all blocks, every load inside memory |
| `VectorKernels.VectorThenScalar` | crates/ematix-parquet-codec/src/bitpack_avx2.rs:232-274 | the vector blocks followed by the scalar tail from byte `processed * bw / 8` give the positional values of the whole run |
| `VectorKernels.SeamAt` | crates/ematix-parquet-codec/src/bitpack_avx2.rs:268-272 | values before and after a byte boundary are the values of the whole |
| `VectorKernels.GuardIsSafe` | crates/ematix-parquet-codec/src/bitpack_avx2.rs:256-262 | a fitting guard keeps only blocks whose last load ends inside the packed buffer |
| `VectorKernels.Avx2GuardFits` | crates/ematix-parquet-codec/src/bitpack_avx2.rs:32-4040 | for every width the AVX2 guard fits its kernel, so every load lies inside `packed` |
| `VectorKernels.NeonGuardFits` | crates/ematix-parquet-codec/src/bitpack_neon.rs:39-4863 | for every width but 5 and 21 the NEON guard fits its kernel |
| `VectorKernels.NeonLoadsExactly` | crates/ematix-parquet-codec/src/bitpack_neon.rs:2975-3106 | all NEON loads stay inside the readable bytes if and only if the width is neither 5 nor 21, or `n < 16` or `5*(n/8)+6` bytes are readable (width 5), or `n < 8`, the packed bytes number at most `21*(n/8)`, or `21*(n/8)+5` bytes are readable (width 21) |
| `VectorKernels.NeonOverreads` | crates/ematix-parquet-codec/src/bitpack_neon.rs:2975-3106 | sixteen 5-bit values in 10 bytes: the guard keeps a block that loads to byte 16; eight 21-bit values in 22 bytes: to byte 26 |
| `VectorKernels.UnpackIndicesAvx2` | crates/ematix-parquet-codec/src/bitpack_avx2.rs:32-4040 | every AVX2 entry point gives the positional values, or an error exactly when the buffer is shorter than `ceil(n*bw/8)` |
| `VectorKernels.UnpackIndicesNeon` | crates/ematix-parquet-codec/src/bitpack_neon.rs:39-4863 | every NEON entry point does the same, although it shifts as signed, on exactly the buffers where its loads stay inside |
| `DictStream.PackedChunkSize` | crates/ematix-parquet-codec/src/dict.rs:98-101 | a bit-packed run of `g` groups occupies exactly `g*bw` bytes |
| `DictStream.SelectAppend` | crates/ematix-parquet-codec/src/dict.rs:635-895 | selecting by bitmap is compositional over consecutive rows |
| `DictStream.SelectLookup` | crates/ematix-parquet-codec/src/dict.rs:635-895 | looking up the selected indices is selecting from the looked-up values |
| `DictStream.FusedIsTwoPass` | crates/ematix-parquet-codec/src/dict.rs:193-271 | whenever the fused lookup succeeds, so do both passes, with the same values |
| `DictStream.FusedSucceedsExactly` | crates/ematix-parquet-codec/src/dict.rs:193-271 | the fused lookup succeeds if and only if both passes do and no empty RLE run on the way names an index outside the dictionary |
| `DictStream.EmptyRunRefusedOnlyWhenFused` | crates/ematix-parquet-codec/src/dict.rs:193-271 | a page that decodes in two passes and is refused by the fused decoder |
| `DictStream.GuardedIsIndexStream` | crates/ematix-parquet-codec/src/dict.rs:406-420 | a walker that refuses RLE indices from a limit on sees the plain index stream or fails, and fails whenever such a run occurs |
| `DictStream.GuardedBound` | crates/ematix-parquet-codec/src/dict.rs:406-420 | every index such a walker emits is below the limit |
| `DictStream.GatherRefinesLookup` | crates/ematix-parquet-codec/src/dict.rs:635-895 | late gather refines full decode: exactly the selected values, in order |
| `DictStream.GatherSucceedsExactly` | crates/ematix-parquet-codec/src/dict.rs:635-895 | the gather succeeds if and only if every RLE run met and every selected index is in range, and then equals guarded decode, selection, lookup |
| `DictStream.PageFusedIsTwoPass` | crates/ematix-parquet-codec/src/dict.rs:193-271 | fused lookup and two passes agree for whole pages, width byte and width 0 included |
| `DictStream.PageFusedSucceedsExactly` | crates/ematix-parquet-codec/src/dict.rs:193-271 | the exact condition for whole pages |
| `DictStream.PageGatherRefinesDecode` | crates/ematix-parquet-codec/src/dict.rs:635-895 | whenever the full page decode succeeds with values `v`, the gather at any bitmap offset succeeds with the selected elements of `v` |
| `DictStream.PageGatherSucceedsExactly` | crates/ematix-parquet-codec/src/dict.rs:635-895 | the gather of a whole page succeeds if and only if the page decodes, every RLE run met and every selected index is in range, and at width 0 the dictionary is not empty; its result is decode, selection and lookup |
| `DictStream.WidthByteFirst` | crates/ematix-parquet-codec/src/dict.rs:67-90 | an empty body and a width above 32 are refused before anything else, even for no rows |
| `DictStream.WalkerErrors` | crates/ematix-parquet-codec/src/dict.rs:193-271 | a checking walker fails as the stream does or names an index outside its limit |
| `DictDecode.ReadRepeatedIndex` | crates/ematix-parquet-codec/src/dict.rs:107-110 | the OR loop reads the little-endian index without losing bits |
| `DictDecode.ReadRunFrom` | crates/ematix-parquet-codec/src/dict.rs:92-110 | one run is read and the cursor strictly advances |
| `DictDecode.EmitRun` | crates/ematix-parquet-codec/src/dict.rs:97-116 | a run contributes the first `m` of its values |
| `DictDecode.DecodeIndicesInto` | crates/ematix-parquet-codec/src/dict.rs:67-119 | the index walker appends the stream's first `n` indices, or fails as the stream does with earlier output kept; it terminates by consumption even on empty runs |
| `DictDecode.DecodeIndices` | crates/ematix-parquet-codec/src/dict.rs:53-57 | the same into a fresh vector |
| `DictDecode.EmitLookup` | crates/ematix-parquet-codec/src/dict.rs:225-268 | one run looked up, failing as the reference does |
| `DictDecode.DecodeValuesInto` | crates/ematix-parquet-codec/src/dict.rs:193-271 | the fused walker appends the looked-up values, or fails as the fused stream does |
| `Gather.CountByte` | crates/ematix-parquet-codec/src/dict.rs:944-948 | `count_ones` of a byte counts its eight bits |
| `Gather.PopcountRange` | crates/ematix-parquet-codec/src/dict.rs:930-958 | head bits, whole bytes and tail bits together count the set bits of any range |
| `Gather.SelectRepeat` | crates/ematix-parquet-codec/src/dict.rs:881-893 | selecting from a repeated value gives one copy per set bit |
| `Gather.SelectZeroByte` | crates/ematix-parquet-codec/src/dict.rs:785-786 | a zero mask byte selects nothing, so its block needs no unpacking |
| `Gather.PushSelected` | crates/ematix-parquet-codec/src/dict.rs:713-726 | the per-row loop pushes exactly the selected, looked-up rows or the first error |
| `Gather.GatherMisaligned` | crates/ematix-parquet-codec/src/dict.rs:694-768 | head peel and the re-unpacked rest give every row of the run once |
| `Gather.GatherBlock` | crates/ematix-parquet-codec/src/dict.rs:785-824 | an eight-row block against its mask byte |
| `Gather.GatherAligned` | crates/ematix-parquet-codec/src/dict.rs:770-864 | skipped and unpacked blocks and the tail give the selected rows of the run |
| `Gather.GatherRun` | crates/ematix-parquet-codec/src/dict.rs:682-895 | any run, by whichever path, contributes its selected, looked-up rows |
| `Gather.LookedSplit` | crates/ematix-parquet-codec/src/dict.rs:711-895 | the bits of later rows are looked at only when no earlier selected index is outside the dictionary |
| `Gather.GatherInto` | crates/ematix-parquet-codec/src/dict.rs:635-898 | the gather appends exactly what the gather stream says, at any bitmap offset, or fails as it does with earlier output kept |
| `Bitmaps.SetBit` | crates/ematix-parquet-codec/src/dict.rs:398-402 | OR-ing a shifted bit into a byte changes that bit only |
| `Bitmaps.FillBytes` | crates/ematix-parquet-codec/src/dict.rs:387-393 | copying bytes into a zeroed bitmap at a byte boundary appends their bits |
| `Bitmaps.AppendedMeaning` | crates/ematix-parquet-codec/src/dict.rs:312-327 | an appended bitmap leaves earlier bytes alone, has the row's bit at its position and zero padding |
| `PredicateBitmap.ZeroOneMeaning` | crates/ematix-parquet-codec/src/dict.rs:441-463 | the masks the predicate walkers take: zeros and ones, as the builder makes them |
| `PredicateBitmap.FusedBitsAreMaskedIndices` | crates/ematix-parquet-codec/src/dict.rs:328-432 | the fused bits are the mask applied to the decoded indices |
| `PredicateBitmap.FusedBitsSucceedExactly` | crates/ematix-parquet-codec/src/dict.rs:328-432 | the exact domain of the fused decoder: width below 32, mask large enough, stream decodable, RLE indices below `2^width` |
| `PredicateBitmap.FusedRefusals` | crates/ematix-parquet-codec/src/dict.rs:328-355 | the errors for an empty body, a width above 31 and a short mask, even for no rows |
| `PredicateBitmap.PackByte` | crates/ematix-parquet-codec/src/bitpack_avx2.rs:4080-4090 | OR-ing shifted mask entries gives the byte whose bits they are |
| `PredicateBitmap.OrRows` | crates/ematix-parquet-codec/src/dict.rs:394-403 | bits OR-ed one by one into zeroed bytes, at any alignment |
| `PredicateBitmap.SplatOnes` | crates/ematix-parquet-codec/src/dict.rs:465-488 | a splat sets exactly the rows `[start, end)`, through partial head byte, whole bytes and tail |
| `PredicateBitmap.FusedPortable` | crates/ematix-parquet-codec/src/dict.rs:567-616 | the portable chunk decoder appends the masked bits of the chunk, zero padded, all mask reads in bounds |
| `PredicateBitmap.FusedAvx2` | crates/ematix-parquet-codec/src/bitpack_avx2.rs:4094-4495 | the AVX2 chunk decoders do the same, failing exactly on a short mask or a short buffer |
| `PredicateBitmap.FusedBlocks` | crates/ematix-parquet-codec/src/bitpack_avx2.rs:4133-4143 | the staged blocks fill one output byte each, every load inside the buffer |
| `PredicateBitmap.FusedBitmapChunk` | crates/ematix-parquet-codec/src/dict.rs:494-616 | whichever path the dispatch takes, the chunk's bitmap is the same |
| `PredicateBitmap.EmitRunBits` | crates/ematix-parquet-codec/src/dict.rs:379-429 | aligned copy, misaligned merge and RLE splat all append the run's masked bits |
| `PredicateBitmap.PredicateBitmapInto` | crates/ematix-parquet-codec/src/dict.rs:328-432 | on success `ceil(n/8)` bytes are appended whose bit `r` is `dict_mask[idx_r]`, padding zero, earlier bytes unchanged; failures are those of the guarded stream |
| `Adaptive.PopcountPrefix` | crates/ematix-parquet-codec/src/adaptive.rs:184-199 | whole bytes and the masked tail count the set bits of the prefix, ignoring later bits |
| `Adaptive.ProbePageFused` | crates/ematix-parquet-codec/src/adaptive.rs:205-218 | a probe appends the page's padded bitmap and returns its number of set rows |
| `Adaptive.MaterialiseFilter` | crates/ematix-parquet-codec/src/adaptive.rs:405-421 | the rows whose bit is set, in order |
| `Adaptive.FusePages` | crates/ematix-parquet-codec/src/adaptive.rs:325-363 | consecutive pages give the concatenated bitmap and the summed count |
| `Adaptive.MaterialisePages` | crates/ematix-parquet-codec/src/adaptive.rs:373-389 | consecutive pages give the kept values |
| `Adaptive.RunAdaptiveChunk` | crates/ematix-parquet-codec/src/adaptive.rs:296-397 | the empty bitmap exactly when every page has no rows; otherwise, whatever the probe budget and the decision, a bitmap result is the concatenated padded page bitmaps with its count of set bits, a values result the kept values, errors those of the probe and then of the chosen shape; the row total is the number of indices |
| `Adaptive.TotalRowsMeaning` | crates/ematix-parquet-codec/src/adaptive.rs:302-305 | the page counts add up to the number of indices of the chunk, and to nothing if and only if every page is empty |
| `Adaptive.ValuesAreMatching` | crates/ematix-parquet-codec/src/adaptive.rs:373-395 | a values result is the in-order list of `dict[idx]` over all rows whose mask entry is set |
| `Adaptive.BitmapCountsMatching` | crates/ematix-parquet-codec/src/adaptive.rs:357-372 | a bitmap has one set bit per matching row |
| `Adaptive.DispatchAgrees` | crates/ematix-parquet-codec/src/adaptive.rs:296-397 | where both shapes succeed, there are as many values as set bits |
| `Adaptive.ValuesSucceedExactly` | crates/ematix-parquet-codec/src/adaptive.rs:296-397 | the materialised shape succeeds if and only if the fused one does, every index of the chunk is inside the dictionary, and so are those of the empty RLE runs met |
| `Adaptive.FusedWhereValuesFail` | crates/ematix-parquet-codec/src/adaptive.rs:375-390 | one row of width 0 against an empty dictionary: the two shapes do not fail together |
| `Adaptive.AlignedLayout` | crates/ematix-parquet-codec/src/adaptive.rs:250-254 | on pages each of which has a multiple of eight rows or is followed by none, the bitmap is that of one page with all the rows |
| `Adaptive.LayoutExactly` | crates/ematix-parquet-codec/src/adaptive.rs:250-254 | the documented layout, row `r` of the chunk is bit `r`, holds for all bodies and masks on given row counts if and only if those row counts are aligned |
| `Adaptive.LayoutBreaks` | crates/ematix-parquet-codec/src/adaptive.rs:250-254 | two pages of one row each: the second row is bit 8 |
| `DeltaStream.DeltaMeaning` | crates/ematix-parquet-codec/src/delta.rs:54-119 | a decoded stream has `num_values` values, value `k` in range and congruent modulo 2^32 or 2^64 to the first value plus the first `k` increments |
| `DeltaStream.AccumulatorNeverWraps` | crates/ematix-parquet-codec/src/delta.rs:121-158 | for up to 2^62 values no partial sum of an i64 stream leaves the i128 accumulator |
| `DeltaStream.IncrementsBounded` | crates/ematix-parquet-codec/src/delta.rs:166-218 | every increment lies in `[-2^63, 2^63 + 2^64)` |
| `DeltaStream.WrappedStep` | crates/ematix-parquet-codec/src/delta.rs:110-113 | two wrapping additions and a truncating cast give the truncated exact sum |
| `DeltaDecode.EmitDeltas` | crates/ematix-parquet-codec/src/delta.rs:106-115 | the inner loop emits the running sums until enough values are out |
| `DeltaDecode.DecodeMiniBlocks` | crates/ematix-parquet-codec/src/delta.rs:93-116 | mini-blocks are consumed only while values are wanted, each refused as the width rules say or when its body is no whole number of bytes |
| `DeltaDecode.DecodeBlocks` | crates/ematix-parquet-codec/src/delta.rs:80-117 | the block loop emits the running sums of all increments and terminates by consumption, zero-sized mini-blocks included |
| `DeltaDecode.DecodeDeltaFrom` | crates/ematix-parquet-codec/src/delta.rs:54-220 | both decoders return the values of the stream at the cursor and leave it just after the last body they needed, or fail as the stream does |
| `DeltaArrays.DeltaLocal` | crates/ematix-parquet-codec/src/delta.rs:50-58 | a delta stream is self-delimiting: bytes before and after it change neither values nor where the cursor stops |
| `DeltaArrays.DecodeDeltaLengthByteArray` | crates/ematix-parquet-codec/src/delta.rs:236-249 | lengths, then slices, with negative and overlong lengths refused |
| `DeltaArrays.DecodeDeltaByteArray` | crates/ematix-parquet-codec/src/delta.rs:261-291 | two nested streams, then prefix and suffix rebuilding with its error cases |
| `DeltaArrays.LengthArrayRoundTrip` | crates/ematix-parquet-codec/src/delta.rs:225-249 | any stream of the lengths followed by the values decodes to the values |
| `DeltaArrays.ByteArrayRoundTrip` | crates/ematix-parquet-codec/src/delta.rs:251-291 | for any byte strings and any prefix lengths no longer than what consecutive strings share, prefix stream, suffix-length stream and suffix bytes decode to the strings |
| `DeltaArrays.LengthArrayExactly` | crates/ematix-parquet-codec/src/delta.rs:236-249 | bytes behind a stream of lengths become values if and only if no length is negative and they do not need more bytes than there are |
| `DeltaArrays.ByteArrayExactly` | crates/ematix-parquet-codec/src/delta.rs:261-291 | bytes behind two streams become values if and only if there are as many prefixes as suffixes, none negative, no prefix longer than the value before it, and enough suffix bytes |
| `DeltaFormat.StreamRead` | crates/ematix-parquet-codec/src/delta.rs:1-33 | every stream of the block layout decodes to the running sums of its deltas and is consumed exactly, whatever follows it |
| `DeltaFormat.HeaderAlone` | crates/ematix-parquet-codec/src/delta.rs:54-75 | no values end the stream behind its header whatever geometry that names; with values, mini-blocks must divide the block |
| `DeltaFormat.FirstBlockRefused` | crates/ematix-parquet-codec/src/delta.rs:80-117 | what a first block is refused for: more than 64 mini-blocks, a width too large for the type, missing body bytes, a body that is no whole number of bytes |
| `DeltaFormat.BlocksRead` | crates/ematix-parquet-codec/src/delta.rs:80-117 | blocks, widths and needed bodies are read back as written |
| `DeltaFormat.WriteDelta` | crates/ematix-parquet-codec/src/delta.rs:54-119 | every list of in-range values has a stream that decodes to it, alone or followed by anything |
| `DeltaFormat.DifferencesAddUp` | crates/ematix-parquet-codec/src/delta.rs:110-113 | differences taken modulo the width sum back to the values |
| `Packing.PackValue` | crates/ematix-parquet-codec/src/rle.rs:98-114 | the byte-wise inner loop writes the low bits of one value behind those already there |
| `Packing.PackLsbFirst` | crates/ematix-parquet-codec/src/rle.rs:88-115 | all values are written `bw` bits each into exactly `n/8*bw` fresh bytes |
| `Packing.PackRoundTrip` | crates/ematix-parquet-codec/src/rle.rs:88-115 | what was packed unpacks to the same values, earlier bytes untouched |
| `Rle.WriteUvarint` | crates/ematix-parquet-codec/src/rle.rs:80-86 | the varint written is the minimal base-128 form |
| `Rle.LebIsShortest` | crates/ematix-parquet-codec/src/rle.rs:80-86 | no written varint has more groups than its value needs |
| `Rle.UvarintRoundTrip` | crates/ematix-parquet-codec/src/rle.rs:80-86 | a written 64-bit varint is read back, and consumed entirely |
| `Rle.RunRoundTrip` | crates/ematix-parquet-codec/src/rle.rs:7-16 | a written run is read back wherever it lies |
| `Rle.StreamRoundTrip` | crates/ematix-parquet-codec/src/rle.rs:227-283 | a list of written runs reads back as its first `n` values |
| `Rle.Encode` | crates/ematix-parquet-codec/src/rle.rs:160-222 | the run-coalescing encoder, borrowing included, writes runs whose values start with the indices, and those that the plan of stretches calls for |
| `Rle.PlanMeaning` | crates/ematix-parquet-codec/src/rle.rs:126-155 | values without eight equal ones in a row, then `n` equal ones: the last group is filled up from the stretch and the rest is one repeated run when at least eight are left; otherwise everything is one packed run |
| `Rle.RepeatsAreLong` | crates/ematix-parquet-codec/src/rle.rs:132-137 | no repeated run is shorter than eight |
| `Rle.EncodeRleBitPacked` | crates/ematix-parquet-codec/src/rle.rs:117-222 | encoder and decoder are inverse: the written body decodes to the indices at every width up to 32, in the runs the plan calls for; at width 0 it is one run of zeros, above 32 it is empty |
| `Rle.WindowsFitExactly` | crates/ematix-parquet-codec/src/rle.rs:257-268 | the first `m` values of a packed run fit the 64-bit window if and only if the width is at most 58, 60 or 64, or `m` is at most one (two at width 59) |
| `Rle.DecodeRleBitPacked` | crates/ematix-parquet-codec/src/rle.rs:227-283 | at every width and on every stream: what the stream stands for, errors included, if and only if every packed value it gets to needs at most eight bytes; otherwise the shift by 64 overflows |
| `Rle.SecondWideValueOverflows` | crates/ematix-parquet-codec/src/rle.rs:257-268 | a stream of two 63-bit values on which the reader overflows, and reads the first value alone |
| `Rle.DecodedRoundTrip` | crates/ematix-parquet-codec/src/rle.rs:227-236 | at every width up to 64 written runs stand for their first `n` values; wider streams are refused |
| `Rle.BothReadersAgree` | crates/ematix-parquet-codec/src/rle.rs:227-283 | the generic decoder and the dictionary page decoder read the same stream |
| `Levels.ComputeMaxLevels` | crates/ematix-parquet-codec/src/levels.rs:161-216 | the loop over the schema vector runs the stack machine, on any vector |
| `Levels.ScanForest` | crates/ematix-parquet-codec/src/levels.rs:161-216 | scanning a flattened subtree either returns its leaf's levels or passes over it and counts its siblings as finished |
| `Levels.MachineIsRecursion` | crates/ematix-parquet-codec/src/levels.rs:149-216 | on any flattened tree less than 65536 deep the machine returns the counts of repeated, and of repeated or optional, nodes on the path to leaf `k`, and fails exactly when there is no leaf `k` |
| `Levels.DepthIsLongestPath` | crates/ematix-parquet-codec/src/levels.rs:149-160 | the depth that is bounded is that of the longest path to a leaf |
| `Levels.FailsExactly` | crates/ematix-parquet-codec/src/levels.rs:161-216 | on any vector, well formed or not, the machine fails if and only if there is no root with children or no childless element `k` behind it, and its levels fit 16 bits |
| `LevelStreams.BitWidthIsLeast` | crates/ematix-parquet-codec/src/levels.rs:34-48 | `bit_width_for` is the least width that holds the level |
| `LevelStreams.DecodeLevels` | crates/ematix-parquet-codec/src/levels.rs:58-81 | a length-prefixed level stream, its end, and its error cases |
| `LevelStreams.ParseV1DataPageBody` | crates/ematix-parquet-codec/src/levels.rs:90-107 | the parse: both streams, the remaining value bytes, and its errors |
| `LevelStreams.SkipV1LevelPrefixes` | crates/ematix-parquet-codec/src/levels.rs:121-147 | the offset past both prefixes |
| `LevelStreams.SkipAgreesWithParse` | crates/ematix-parquet-codec/src/levels.rs:109-147 | the fast path finds the parse's offset, and fails only where the parse does |
| `LevelStreams.SkipExactly` | crates/ematix-parquet-codec/src/levels.rs:109-147 | skipping succeeds, and fails, exactly as a parse for no values does |
| `LevelStreams.LevelsRoundTrip` | crates/ematix-parquet-codec/src/levels.rs:83-107 | repetition levels are read from the first stream and definition levels from the second, nothing being on the wire at width 0, and the values are what follows |
| `LevelStreams.CutStreamRefused` | crates/ematix-parquet-codec/src/levels.rs:62-75 | a level stream cut short anywhere is refused by the parse and by the fast path |
| `LevelStreams.WriteV1Levels` | crates/ematix-parquet-codec/src/levels.rs:83-107 | levels within their maxima, written through the encoder, are read back together with the values |
| `Lz4.UncompressedSize` | crates/ematix-parquet-codec/src/compression.rs:254-306 | the index loop computes the walk, truncated chains and error cases included |
| `Lz4.WalkIsExact` | crates/ematix-parquet-codec/src/compression.rs:242-306 | on every serialised block, with arbitrarily long 0xFF chains, the walk returns the total of literal and match lengths |
| `Lz4.WalkBlock` | crates/ematix-parquet-codec/src/compression.rs:254-306 | the same for blocks that end behind a match or inside a match's length chain |
| `Lz4.WalkSucceedsExactly` | crates/ematix-parquet-codec/src/compression.rs:254-306 | the walk succeeds on a buffer if and only if it is such a block |
| `Lz4.SizeIsDecompressedLength` | crates/ematix-parquet-codec/src/compression.rs:242-306 | and that is the length of the decompressed bytes |
| `Bloom.BlockIndexInRange` | crates/ematix-parquet-codec/src/bloom.rs:108-109 | the multiply-shift block index is below the number of blocks |
| `Bloom.MaskBitMeaning` | crates/ematix-parquet-codec/src/bloom.rs:110-116 | the bit is the top five bits of the 32-bit product of the hash's low half and the word's salt, the eight salts written out |
| `Bloom.BlockIndexMeaning` | crates/ematix-parquet-codec/src/bloom.rs:108-109 | the block is the high half scaled to the number of blocks |
| `Bloom.FilterOfOne` | crates/ematix-parquet-codec/src/bloom.rs:176-200 | one block after hash 1: the eight bits set |
| `Bloom.ZeroIsNotThirtyTwo` | crates/ematix-parquet-codec/src/bloom.rs:102-127 | one block after hash 0 does not contain hash 32 |
| `Bloom.Builder.constructor` | crates/ematix-parquet-codec/src/bloom.rs:166-172 | a new filter reflects no hash |
| `Bloom.Builder.InsertHash` | crates/ematix-parquet-codec/src/bloom.rs:176-200 | inserting adds exactly one hash to what the bitset reflects |
| `Bloom.SetWordBit` | crates/ematix-parquet-codec/src/bloom.rs:186-198 | reading, OR-ing and writing back a little-endian word sets one bit |
| `Bloom.ContainsHash` | crates/ematix-parquet-codec/src/bloom.rs:102-127 | the test is true exactly when all eight tested bits are set; an empty filter contains nothing |
| `Bloom.ContainsExactly` | crates/ematix-parquet-codec/src/bloom.rs:98-127 | membership holds if and only if for each of the eight words some inserted hash chose the same block and bit |
| `Bloom.EmptyContainsNothing` | crates/ematix-parquet-codec/src/bloom.rs:102-105 | a filter without blocks contains nothing |
| `Bloom.InsertedIsContained` | crates/ematix-parquet-codec/src/bloom.rs:98-101 | no false negatives |
| `Bloom.OrderIndependent` | crates/ematix-parquet-codec/src/bloom.rs:176-200 | the bitset depends only on the set of hashes inserted |
| `ByteArrays.DecodePlainByteArray` | crates/ematix-parquet-codec/src/plain.rs:412-421 | length-prefixed values to the end of the buffer, or the cursor's error |
| `ByteArrays.PlainRoundTrip` | crates/ematix-parquet-codec/src/plain.rs:412-421 | values written with four bytes of length each are read back |
| `ByteArrays.PlainIsText` | crates/ematix-parquet-codec/src/plain.rs:412-421 | and a page that decodes is that text of its values |
| `ByteArrays.ReadRows` | crates/ematix-parquet-async/src/read.rs:110-169 | the row reader's page loop, dictionary handling, early stop and errors |
| `ByteArrays.WalkPlain` | crates/ematix-parquet-async/src/read.rs:234-263 | the inline PLAIN walk with its two errors and its cap |
| `ByteArrays.ReadOffsets` | crates/ematix-parquet-async/src/read.rs:191-304 | the offsets reader's page loop with 32-bit wrapping offsets |
| `ByteArrays.OffsetsDelimit` | crates/ematix-parquet-async/src/read.rs:175-178 | offsets start at 0, never decrease, end at the number of bytes, and delimit the rows |
| `ByteArrays.WrappedRepresents` | crates/ematix-parquet-async/src/read.rs:191-304 | 32-bit running sums delimit the rows if and only if the bytes number less than 2^32 |
| `ByteArrays.PlainPageExactly` | crates/ematix-parquet-async/src/read.rs:234-263 | on one PLAIN page the readers agree if and only if it holds at most the values it says; on a page the row reader refuses, the offsets reader succeeds if and only if that many values are whole |
| `ByteArrays.StepsAgree` | crates/ematix-parquet-async/src/read.rs:191-304 | one page keeps the offsets reader in step with the row reader that takes no more PLAIN values than the page says, errors included |
| `ByteArrays.OffsetsReaderExactly` | crates/ematix-parquet-async/src/read.rs:191-304 | what the offsets reader returns on any page sequence: the flat form of that reader's rows in 32-bit sums, or its error |
| `ByteArrays.StepsSameExactly` | crates/ematix-parquet-async/src/read.rs:110-169 | a step of the row reader is a step of that reader if and only if the page holds no more PLAIN values than it says |
| `ByteArrays.OffsetsRepresentRows` | crates/ematix-parquet-async/src/read.rs:171-304 | whenever the row reader succeeds and no PLAIN page on the way is overfull, the offsets reader returns the same rows' bytes across any sequence of dictionary and PLAIN pages, and its offsets delimit them if and only if they number less than 2^32 |
| `ByteArrays.ReadersAgreeExactly` | crates/ematix-parquet-async/src/read.rs:110-304 | over whole runs, with at least one value said on every PLAIN page: the row reader and the reader that takes no more values than a page says return the same rows at every row count at which the first succeeds, if and only if no page before the first it refuses is overfull |
| `ByteArrays.OverfullPageHidden` | crates/ematix-parquet-async/src/read.rs:234-263 | at a single row count an overfull page can go unnoticed |
| `ByteArrays.OverfullPageDiffers` | crates/ematix-parquet-async/src/read.rs:234-263 | a page of two values that says one: two rows against one |
| `ByteArrays.TrailingByteDiffers` | crates/ematix-parquet-async/src/read.rs:234-263 | a stray byte behind the last value: only the offsets reader succeeds |
| `JsonText.BodyRoundTrip` | crates/ematix-iceberg/src/extension.rs:421-473 | what reading a printed string body gives, for every string and in both states of the reader |
| `JsonText.StringRoundTrip` | crates/ematix-iceberg/src/extension.rs:329-346 | a printed string is read back, mangled, exactly when it is clean |
| `JsonText.MangledIsIdentity` | crates/ematix-iceberg/src/extension.rs:467-469 | mangling changes nothing exactly when no byte above 0x7F follows an escaped character |
| `JsonText.HexRoundTrip` | crates/ematix-iceberg/src/extension.rs:285-319 | hex printing and parsing are inverse |
| `JsonText.HexMeaning` | crates/ematix-iceberg/src/extension.rs:285-290 | two lower-case digits a byte |
| `JsonText.ControlEscape` | crates/ematix-iceberg/src/extension.rs:338-341 | a control character without a letter of its own is printed as four hex digits |
| `JsonText.IntegerRoundTrip` | crates/ematix-iceberg/src/extension.rs:475-488 | every i64 printed in decimal is read back |
| `JsonText.DecimalIsShortest` | crates/ematix-iceberg/src/extension.rs:173-178 | no leading zeros |
| `JsonText.SkipValue` | crates/ematix-iceberg/src/extension.rs:492-555 | skipping a value consumes at least one byte, so the lenient recursion terminates |
| `Extension.KeyRoundTrip` | crates/ematix-iceberg/src/extension.rs:173-183 | any i64, i32 or bytes bound is read back as it was, whatever follows |
| `Extension.SummaryRoundTrip` | crates/ematix-iceberg/src/extension.rs:154-171 | a summary is read back with its name mangled, exactly when the name is clean |
| `Extension.ElementsRoundTrip` | crates/ematix-iceberg/src/extension.rs:186-197 | the summary list, in order |
| `Extension.PrintedRead` | crates/ematix-iceberg/src/extension.rs:114-147 | the printed form with any version text: malformed unless all strings are clean, unsupported if and only if the version read back is not v1, and the extension otherwise |
| `Extension.VersionAlone` | crates/ematix-iceberg/src/extension.rs:132-141 | a version without a path is unsupported if and only if it is not v1: the version is checked first |
| `Extension.UnknownVersionRefused` | crates/ematix-iceberg/src/extension.rs:627-632 | version v99 is refused whatever the extension says |
| `Extension.FromJsonOfToJson` | crates/ematix-iceberg/src/extension.rs:93-147 | exactly what `from_json(to_json(e))` is, for every extension |
| `Extension.RoundTripExactly` | crates/ematix-iceberg/src/extension.rs:93-147 | printer and parser undo each other if and only if all strings are clean and stable |
| `Extension.ControlCharacterRefused` | crates/ematix-iceberg/src/extension.rs:338-341 | a path of U+0001 is printed and refused |
| `Extension.AccentAfterEscapeMangled` | crates/ematix-iceberg/src/extension.rs:467-469 | a path of a newline and an accented letter comes back with two more bytes |
| `Extension.AsciiRoundTrip` | crates/ematix-iceberg/src/extension.rs:93-147 | in particular for ASCII strings with no control characters but newline, return and tab |
| `JsonDocument.LiteralRead` | crates/ematix-iceberg/src/extension.rs:421-473 | any string literal with the six known escapes is read as what it stands for |
| `JsonDocument.LiteralBroken` | crates/ematix-iceberg/src/extension.rs:448-472 | a literal that does not end, or with another escape, is malformed |
| `JsonDocument.BlankSkipped` | crates/ematix-iceberg/src/extension.rs:361-370 | space, tab, newline and return are skipped, and no other character |
| `JsonDocument.NumberExactly` | crates/ematix-iceberg/src/extension.rs:475-488 | an integer is its digits' value, or malformed when it has none or leaves 64 bits |
| `JsonDocument.LeadingZeros` | crates/ematix-iceberg/src/extension.rs:475-488 | leading zeros do not count |
| `JsonDocument.HexExactly` | crates/ematix-iceberg/src/extension.rs:292-319 | hex text of either case in pairs is its bytes, anything else malformed |
| `JsonDocument.ValueSkipped` | crates/ematix-iceberg/src/extension.rs:492-555 | any JSON value with integer numbers, in any layout, is skipped to its end |
| `JsonDocument.KeyRead` | crates/ematix-iceberg/src/extension.rs:232-279 | what a bound is for any value in its place: the last type, value and hex count, unknown members do not, and the type decides which one is needed |
| `JsonDocument.SummaryRead` | crates/ematix-iceberg/src/extension.rs:199-230 | what a summary is for any value in its place |
| `JsonDocument.ListRead` | crates/ematix-iceberg/src/extension.rs:186-197 | the elements in order, with or without commas |
| `JsonDocument.DocumentRead` | crates/ematix-iceberg/src/extension.rs:110-147 | what `from_json` gives on every JSON document, in any layout, with members in any order, repeated or unknown: malformed unless a known member has the right kind, then the version is checked, then the path required, and missing summaries are none |
| `JsonParser.Parser.SkipWs` | crates/ematix-iceberg/src/extension.rs:361-370 | white space, all of it |
| `JsonParser.Parser.ReadString` | crates/ematix-iceberg/src/extension.rs:421-429 | `string` reads what the string grammar says and stops behind the closing quote |
| `JsonParser.Parser.ReadBody` | crates/ematix-iceberg/src/extension.rs:424-473 | the lazily copied and the byte-by-byte phase of the string loop together |
| `JsonParser.Parser.ReadI64` | crates/ematix-iceberg/src/extension.rs:475-488 | sign and digits, range checked |
| `JsonParser.Parser.SkipAny` | crates/ematix-iceberg/src/extension.rs:492-555 | the mutually recursive skipper computes the skip and terminates |
| `JsonParser.ParseHexText` | crates/ematix-iceberg/src/extension.rs:292-307 | pairs of nibbles, odd lengths and bad digits refused |
| `JsonParser.ParseSummaryKey` | crates/ematix-iceberg/src/extension.rs:232-279 | members in any order, unknown ones skipped, type and range checks last |
| `JsonParser.ParseOneSummary` | crates/ematix-iceberg/src/extension.rs:199-230 | members in any order, the name required |
| `JsonParser.ParseSummaries` | crates/ematix-iceberg/src/extension.rs:186-197 | elements with optional commas |
| `JsonParser.ReadExtension` | crates/ematix-iceberg/src/extension.rs:114-147 | `from_json`: version before path, both required, trailing text ignored |
| `JsonParser.WriteJsonString` | crates/ematix-iceberg/src/extension.rs:329-346 | the printed string, appended |
| `JsonParser.WriteSummary` | crates/ematix-iceberg/src/extension.rs:154-171 | absent fields are not printed |
| `JsonParser.WriteExtension` | crates/ematix-iceberg/src/extension.rs:93-108 | the printed extension, commas between elements only |
| `KeyMetadata.ToJsonUtf8` | crates/ematix-iceberg/src/iceberg_rs.rs:72-82 | the printed extension is UTF-8 when its strings are, so decoding never stops at the UTF-8 check |
| `KeyMetadata.Utf8Exactly` | crates/ematix-iceberg/src/iceberg_rs.rs:78-81 | the UTF-8 check accepts exactly the encodings of Unicode scalar values |
| `KeyMetadata.PushedCharacter` | crates/ematix-iceberg/src/extension.rs:467-469 | a byte pushed as a character becomes the UTF-8 form of that code point |
| `KeyMetadata.ForeignMetadata` | crates/ematix-iceberg/src/iceberg_rs.rs:72-77 | metadata without the magic `EMTX` is no extension and no error |
| `KeyMetadata.MagicMeaning` | crates/ematix-iceberg/src/iceberg_rs.rs:78-82 | behind the magic, text that is no UTF-8 is malformed and any other is what its JSON is |
| `KeyMetadata.EncodeKeyMetadata` | crates/ematix-iceberg/src/iceberg_rs.rs:56-62 | the magic and the JSON |
| `KeyMetadata.DecodeKeyMetadata` | crates/ematix-iceberg/src/iceberg_rs.rs:72-82 | foreign metadata is no error; bad UTF-8 or JSON behind the magic is |
| `KeyMetadata.WrapperRoundTrip` | crates/ematix-iceberg/src/iceberg_rs.rs:56-82 | the wrapper preserves exactly what the JSON preserves |
| `KeyMetadata.WrapperAsciiRoundTrip` | crates/ematix-iceberg/src/iceberg_rs.rs:56-82 | and so every extension with ASCII strings |
| `Pruning.LexTotal` | crates/ematix-iceberg/src/summary.rs:207-223 | byte strings are totally ordered |
| `Pruning.LexMeaning` | crates/ematix-iceberg/src/summary.rs:207-223 | byte strings compare at their first difference, a proper prefix being below |
| `Pruning.LessMeaning` | crates/ematix-iceberg/src/summary.rs:207-223 | integers compare as numbers, keys of different types are never one below the other |
| `Pruning.LessThrough` | crates/ematix-iceberg/src/summary.rs:207-223 | keys of one type can be compared through a third |
| `Pruning.EqIsRange` | crates/ematix-iceberg/src/summary.rs:132-177 | equality pruning is the one-point range, errors included |
| `Pruning.RangeIsSound` | crates/ematix-iceberg/src/summary.rs:126-177 | a summary that bounds a wanted key is kept, never pruned and never an error |
| `Pruning.PrunedExactlyWhenDisjoint` | crates/ematix-iceberg/src/summary.rs:151-177 | whichever bounds are known, of one type and in order, a range is pruned if and only if the intervals share no key |
| `Pruning.MismatchIsTheOnlyError` | crates/ematix-iceberg/src/summary.rs:132-146 | a key of another type than a known bound is an error, and nothing else is |
| `Pruning.FindMeaning` | crates/ematix-iceberg/src/extension.rs:88-90 | the summary looked up is the first one of that name, and none if and only if there is none |
| `Pruning.KeepMeaning` | crates/ematix-iceberg/src/iceberg_rs.rs:140-160 | files without metadata, or with someone else's, or without a summary of that name are kept; a file with written metadata is kept or dropped by its first summary of that name |
| `Pruning.KeptExactly` | crates/ematix-iceberg/src/iceberg_rs.rs:168-195 | the result is, in order, exactly the files whose test says so |
| `Pruning.NoErrorExactly` | crates/ematix-iceberg/src/iceberg_rs.rs:168-195 | there is a result if and only if no file's test is an error |
| `Pruning.FirstErrorWins` | crates/ematix-iceberg/src/iceberg_rs.rs:168-195 | the first test that is an error is the result |
| `Pruning.PruneDataFilesRange` | crates/ematix-iceberg/src/iceberg_rs.rs:168-195 | the range loop, conservative keeps and error propagation included |
| `Pruning.PruneDataFilesEq` | crates/ematix-iceberg/src/iceberg_rs.rs:135-163 | the equality loop keeps the same files as the range from the key to itself |
| `Pruning.PruningIsSound` | crates/ematix-iceberg/src/iceberg_rs.rs:114-195 | when in every file the first summary of that name bounds its keys, the result is an order-preserving part of the files and contains every file that holds a wanted key |

## Left out

- Bitpack.UnpackIndicesInto: the AVX2 and NEON dispatch inside it is not repeated; `VectorKernels` proves those paths give the same values.
- Bitpack.UnpackLookupInto: does not model the vector lookup variants, which run the same staging kernels followed by the same lookup; on an empty dictionary they report another index in the error value.
- VectorKernels.UnpackIndicesNeon: requires the buffers on which `VectorKernels.NeonLoadsExactly` says all loads stay inside; what a load past the end returns is not modelled.
- DictDecode.DecodeIndicesInto: the u8 variant, which narrows each index, is not modelled.
- Gather.GatherInto: requires a bitmap with a bit for every row the decoder looks at before it ends; the source panics on a shorter one.
- PredicateBitmap.PredicateBitmapInto: requires a 0/1 mask, the only kind the mask builder (dict.rs:441-463) makes; an entry above 1 is shifted into the bits of later rows. The NEON fused kernels are not modelled, their unpacking is.
- Adaptive.RunAdaptiveChunk: requires a 0/1 mask for the same reason; the telemetry callback and the floating-point selectivity are not modelled.
- DeltaDecode.DecodeMiniBlocks: a body that is no whole number of bytes is an error, as on the vector paths; the scalar unpackers panic on it.
- Rle.DecodeRleBitPacked: the overflowing shift is an outcome of its own; what a build without overflow checks goes on to return is not modelled.
- ByteArrays.ReadOffsets: the 32-bit sum of lengths wraps, as in a build without overflow checks; with them it panics at 2^32 bytes. A dictionary slice whose wrapped offsets are out of order, which takes a dictionary page of 2^32 bytes, is an error here and a panic in the source.
- Lengths and run counts are unbounded naturals: `usize` overflow on absurd counts is not modelled.
- Shuffle tables are given by the first byte each lane picks; the byte-by-byte table constants are not repeated.
- Decompression, page headers, file and object-store access and prefetch hints: bytes are taken as given.
- XXHash64, the Thrift header of a Bloom filter and the sizing formula: hashes are arbitrary 64-bit numbers.
- `encode_rle_bit_packed_single_run`: the coalescing encoder covers its packing and padding.
- `column.rs`, `byte_stream_split.rs`, PLAIN scalar decoders and `build_dict_predicate_mask`: only easier members.
