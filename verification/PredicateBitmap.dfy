/** The predicate-fused decoder: each row's index is looked up in a 0/1 mask and only the resulting
    bitmap is produced. */
module PredicateBitmap {
  import opened Bits
  import opened Bitmaps
  import opened Wire
  import opened Bitpack
  import opened VectorKernels
  import opened DictStream
  import opened DictDecode

  ghost predicate ZeroOne(mask: seq<Byte>) {
    forall k :: 0 <= k < |mask| ==> mask[k] <= 1
  }

  lemma ZeroOneMeaning(mask: seq<Byte>)
    ensures ZeroOne(mask) <==> forall k :: 0 <= k < |mask| ==> mask[k] == 0 || mask[k] == 1
  {
  }

  function MaskAt(mask: seq<Byte>, idx: nat): Byte {
    if idx < |mask| then mask[idx] else 0
  }

  function MaskBits(mask: seq<Byte>, idx: seq<nat>): (r: seq<nat>)
    ensures |r| == |idx| && forall k :: 0 <= k < |idx| ==> r[k] == MaskAt(mask, idx[k])
  {
    seq(|idx|, k requires 0 <= k < |idx| => MaskAt(mask, idx[k]) as nat)
  }

  lemma MaskBitsAppend(mask: seq<Byte>, a: seq<nat>, b: seq<nat>)
    ensures MaskBits(mask, a + b) == MaskBits(mask, a) + MaskBits(mask, b)
  {
  }

  /** The mask covers every index of the width. */
  function RequiredMask(bw: nat): nat {
    if bw == 0 then 1 else Mask(bw) + 1
  }

  /** The row bits of a page, or its error. */
  function PageBits(body: seq<Byte>, mask: seq<Byte>, n: nat): (r: Result<seq<nat>>)
    ensures r.Ok? ==> |r.value| == n
  {
    if body == [] then Err(EmptyDictPageBody)
    else if body[0] >= 32 then Err(BitWidthOutOfRange(body[0]))
    else if |mask| < RequiredMask(body[0]) then Err(Decompress)
    else if n == 0 then Ok([])
    else if body[0] == 0 then Ok(MaskBits(mask, seq(n, _ => 0)))
    else
      var idx :- GuardedStream(body[1..], 0, body[0], RequiredMask(body[0]), n);
      Ok(MaskBits(mask, idx))
  }

  /** The fused bitmap is the mask applied to the decoded indices. */
  lemma FusedBitsAreMaskedIndices(body: seq<Byte>, mask: seq<Byte>, n: nat)
    requires PageBits(body, mask, n).Ok?
    ensures PageIndices(body, n).Ok?
    ensures PageBits(body, mask, n).value == MaskBits(mask, PageIndices(body, n).value)
  {
    hide IndexStream, GuardedStream, Mask, MaskBits, RunsInRange;
    if n == 0 {
      MaskNothing(mask);
    } else if body[0] > 0 {
      GuardedIsIndexStream(body[1..], 0, body[0], RequiredMask(body[0]), n);
    }
  }

  lemma MaskNothing(mask: seq<Byte>)
    ensures MaskBits(mask, []) == []
  {
  }

  /** The exact domain: a width below 32, a mask that covers it, and a decodable stream whose RLE
      runs stay below 2^width. */
  lemma FusedBitsSucceedExactly(body: seq<Byte>, mask: seq<Byte>, n: nat)
    ensures PageBits(body, mask, n).Ok? <==>
              && PageIndices(body, n).Ok?
              && body[0] < 32
              && Mask(body[0]) < |mask|
              && (n > 0 && body[0] > 0 ==> RunsInRange(body[1..], 0, body[0], Mask(body[0]) + 1, n))
  {
    hide IndexStream, GuardedStream, Mask, RunsInRange;
    MaskZero();
    if body != [] && n > 0 && 0 < body[0] < 32 {
      GuardedIsIndexStream(body[1..], 0, body[0], RequiredMask(body[0]), n);
    }
  }

  /** What it is refused for before any run is read, even for no rows. */
  lemma FusedRefusals(body: seq<Byte>, mask: seq<Byte>, n: nat)
    ensures body == [] ==> PageBits(body, mask, n) == Err(EmptyDictPageBody)
    ensures body != [] && body[0] >= 32 ==> PageBits(body, mask, n) == Err(BitWidthOutOfRange(body[0]))
    ensures body != [] && body[0] < 32 && |mask| <= Mask(body[0]) ==> PageBits(body, mask, n) == Err(Decompress)
  {
    hide Mask;
    MaskZero();
  }

  // ----- one output byte -----

  /** Every index can be read from the mask without a check. */
  ghost predicate InMask(mask: seq<Byte>, idx: seq<nat>) {
    forall k :: 0 <= k < |idx| ==> idx[k] < |mask|
  }

  lemma PackedInMask(mask: seq<Byte>, chunk: seq<Byte>, s: nat, n: nat, bw: nat)
    requires Mask(bw) < |mask|
    ensures InMask(mask, Fields(chunk, s, n, bw))
  {
    hide Fields, Mask;
    forall k | 0 <= k < n
      ensures Fields(chunk, s, n, bw)[k] < |mask|
    {
      FieldsAt(chunk, s, n, bw, k);
    }
  }

  /** `b0 | (b1 << 1) | (b2 << 2) | ...` over the mask entries of at most eight indices. */
  function PackByte(mask: seq<Byte>, idx: seq<nat>): (r: Byte)
    requires |idx| <= 8 && ZeroOne(mask) && InMask(mask, idx)
    ensures Filled([r], MaskBits(mask, idx))
    decreases |idx|
  {
    if idx == [] then
      ZeroByte();
      0
    else
      var last := |idx| - 1;
      var byte := PackByte(mask, idx[..last]);
      PackStep(mask, idx, byte);
      Or(byte, Shl(mask[idx[last]], last, 8))
  }

  lemma ZeroByte()
    ensures Filled([0], [])
  {
    ZeroBytes(1);
    assert seq(1, _ => 0) == [0];
  }

  lemma PackStep(mask: seq<Byte>, idx: seq<nat>, byte: Byte)
    requires 0 < |idx| <= 8 && ZeroOne(mask) && InMask(mask, idx)
    requires Filled([byte], MaskBits(mask, idx[..|idx| - 1]))
    ensures var next := Or(byte, Shl(mask[idx[|idx| - 1]], |idx| - 1, 8));
            next < 256 && Filled([next], MaskBits(mask, idx))
  {
    hide Or, Shl, Filled;
    var last := |idx| - 1;
    FillBit([byte], 0, last, mask[idx[last]], MaskBits(mask, idx[..last]));
    var next := Or(byte, Shl(mask[idx[last]], last, 8));
    assert [byte][0 := next] == [next];
    assert MaskBits(mask, idx) == MaskBits(mask, idx[..last]) + [mask[idx[last]] as nat];
  }

  // ----- writing rows -----

  /** Rows OR-ed one bit at a time into zeroed bitmap bytes. */
  method OrRows(start: nat, row0: nat, bits: seq<nat>, ghost done: seq<nat>, out0: seq<Byte>)
    returns (out: seq<Byte>)
    requires Filled(out0, done) && |done| == 8 * start + row0 && |done| + |bits| <= 8 * |out0|
    requires forall k :: 0 <= k < |bits| ==> bits[k] <= 1
    ensures |out| == |out0| && Filled(out, done + bits)
  {
    hide Or, Shl, Filled;
    out := out0;
    assert done + bits[..0] == done;
    for i := 0 to |bits|
      invariant |out| == |out0| && Filled(out, done + bits[..i])
    {
      var row := row0 + i;
      FillBit(out, start + row / 8, row % 8, bits[i], done + bits[..i]);
      out := out[start + row / 8 := Or(out[start + row / 8], Shl(bits[i], row % 8, 8))];
      assert done + bits[..i] + [bits[i]] == done + bits[..i + 1];
    }
    assert bits[..|bits|] == bits;
  }

  ghost predicate Splatted(out: seq<Byte>, done: seq<nat>, ones: nat) {
    Filled(out, done + Ones(ones))
  }

  /** `splat_ones`: bits up to a byte boundary, whole bytes, then the tail. */
  method SplatOnes(start: nat, startRow: nat, endRow: nat, ghost done: seq<nat>, out0: seq<Byte>)
    returns (out: seq<Byte>)
    requires startRow <= endRow && |done| == 8 * start + startRow && 8 * start + endRow <= 8 * |out0|
    requires Filled(out0, done)
    ensures |out| == |out0| && Filled(out, done + Ones(endRow - startRow))
  {
    hide Or, Shl, Filled, Ones, Splatted;
    out := out0;
    SplatNothing(out, done);
    if startRow >= endRow {
      return;
    }
    var row := startRow;
    while row < endRow && row % 8 != 0
      invariant startRow <= row <= endRow && |out| == |out0| && Splatted(out, done, row - startRow)
    {
      OneMore(out, start, row, done, row - startRow);
      out := out[start + row / 8 := Or(out[start + row / 8], Shl(1, row % 8, 8))];
      row := row + 1;
    }
    while row + 8 <= endRow
      invariant startRow <= row <= endRow && (row % 8 == 0 || row == endRow)
      invariant |out| == |out0| && Splatted(out, done, row - startRow)
    {
      EightMore(out, start, row, done, row - startRow);
      out := out[start + row / 8 := 0xFF];
      row := row + 8;
    }
    while row < endRow
      invariant startRow <= row <= endRow && |out| == |out0| && Splatted(out, done, row - startRow)
    {
      OneMore(out, start, row, done, row - startRow);
      out := out[start + row / 8 := Or(out[start + row / 8], Shl(1, row % 8, 8))];
      row := row + 1;
    }
    SplatDone(out, done, endRow - startRow);
  }

  lemma SplatNothing(out: seq<Byte>, done: seq<nat>)
    requires Filled(out, done)
    ensures Filled(out, done + Ones(0)) && Splatted(out, done, 0)
  {
    assert done + Ones(0) == done;
  }

  lemma SplatDone(out: seq<Byte>, done: seq<nat>, ones: nat)
    requires Splatted(out, done, ones)
    ensures Filled(out, done + Ones(ones))
  {
  }

  lemma OneMore(out: seq<Byte>, start: nat, row: nat, done: seq<nat>, ones: nat)
    requires Splatted(out, done, ones) && |done| + ones == 8 * start + row < 8 * |out|
    ensures start + row / 8 < |out| && Or(out[start + row / 8], Shl(1, row % 8, 8)) < 256
    ensures Splatted(out[start + row / 8 := Or(out[start + row / 8], Shl(1, row % 8, 8))], done, ones + 1)
  {
    hide Or, Shl, Filled;
    FillBit(out, start + row / 8, row % 8, 1, done + Ones(ones));
    assert done + Ones(ones) + [1] == done + Ones(ones + 1);
  }

  lemma EightMore(out: seq<Byte>, start: nat, row: nat, done: seq<nat>, ones: nat)
    requires Splatted(out, done, ones) && |done| + ones == 8 * start + row && row % 8 == 0
    requires 8 * start + row + 8 <= 8 * |out|
    ensures start + row / 8 < |out|
    ensures Splatted(out[start + row / 8 := 0xFF], done, ones + 8)
  {
    hide Filled;
    FullByte();
    FillBytes(out, start + row / 8, [0xFF], done + Ones(ones), Ones(8));
    ByteUpdate(out, start + row / 8, 0xFF);
    assert done + Ones(ones) + Ones(8) == done + Ones(ones + 8);
  }

  lemma FullByte()
    ensures Filled([0xFF], Ones(8))
  {
    OnesByte();
    assert Ones(8) + Zeros(0) == Ones(8);
  }

  // ----- a bit-packed chunk -----

  /** Rows `[lo, hi)` of the indices as one byte. */
  lemma PackedRows(out: seq<Byte>, at: nat, mask: seq<Byte>, before: seq<nat>, lanes: seq<nat>, base: seq<nat>)
    requires ZeroOne(mask) && InMask(mask, lanes) && |lanes| <= 8 && at < |out|
    requires Filled(out, base + MaskBits(mask, before)) && |base| + |before| == 8 * at
    ensures Filled(out[at := PackByte(mask, lanes)], base + MaskBits(mask, before + lanes))
  {
    hide Filled, MaskBits, PackByte, InMask, ZeroOne;
    var byte := PackByte(mask, lanes);
    FillBytes(out, at, [byte], base + MaskBits(mask, before), MaskBits(mask, lanes));
    ByteUpdate(out, at, byte);
    NextBits(base, mask, before, lanes);
  }

  lemma NextBits(base: seq<nat>, mask: seq<Byte>, done: seq<nat>, idx: seq<nat>)
    ensures base + MaskBits(mask, done) + MaskBits(mask, idx) == base + MaskBits(mask, done + idx)
  {
    hide MaskBits;
    MaskBitsAppend(mask, done, idx);
    assert base + MaskBits(mask, done) + MaskBits(mask, idx) == base + (MaskBits(mask, done) + MaskBits(mask, idx));
  }

  lemma NoRows(base: seq<nat>, mask: seq<Byte>)
    ensures base + MaskBits(mask, []) == base
  {
  }

  lemma InMaskSlice(mask: seq<Byte>, idx: seq<nat>, lo: nat, hi: nat)
    requires lo <= hi <= |idx| && InMask(mask, idx)
    ensures InMask(mask, idx[lo..hi])
    ensures idx[..lo] + idx[lo..hi] == idx[..hi]
  {
  }

  /** The output bytes of a whole chunk: full ones, then a partial one. */
  method PackRows(mask: seq<Byte>, idx: seq<nat>, start: nat, ghost base: seq<nat>, out0: seq<Byte>)
    returns (out: seq<Byte>)
    requires ZeroOne(mask) && InMask(mask, idx) && |base| == 8 * start && |out0| == start + CeilDiv8(|idx|)
    requires Filled(out0, base)
    ensures |out| == |out0| && Filled(out, base + MaskBits(mask, idx))
  {
    hide Filled, MaskBits, PackByte, InMask, ZeroOne;
    var n, full := |idx|, |idx| / 8;
    out := out0;
    NoRows(base, mask);
    assert idx[..0] == [] && idx[..n] == idx;
    for blk := 0 to full
      invariant |out| == |out0| && Filled(out, base + MaskBits(mask, idx[..8 * blk]))
    {
      InMaskSlice(mask, idx, 8 * blk, 8 * blk + 8);
      PackedRows(out, start + blk, mask, idx[..8 * blk], idx[8 * blk..8 * blk + 8], base);
      out := out[start + blk := PackByte(mask, idx[8 * blk..8 * blk + 8])];
    }
    if n % 8 > 0 {
      InMaskSlice(mask, idx, 8 * full, n);
      PackedRows(out, start + full, mask, idx[..8 * full], idx[8 * full..n], base);
      out := out[start + full := PackByte(mask, idx[8 * full..n])];
    }
  }

  /** The portable `fused_bitmap_chunk`: unpack, then eight gathers per output byte. */
  method FusedPortable(chunk: seq<Byte>, n: nat, bw: nat, mask: seq<Byte>, out0: seq<Byte>)
    returns (r: Outcome, out: seq<Byte>)
    requires 1 <= bw < 32 && n * bw <= 8 * |chunk| && Mask(bw) < |mask| && ZeroOne(mask)
    ensures r.Pass? && Appended(out0, MaskBits(mask, Unpacked(chunk, n, bw)), out)
  {
    hide Mask, Fields, BitsOf, MaskBits, InMask, ZeroOne, Filled;
    var idx;
    r, idx := UnpackIndicesInto(chunk, n, bw, 32, []);
    assert [] + Unpacked(chunk, n, bw) == Unpacked(chunk, n, bw);
    PackedInMask(mask, chunk, 0, n, bw);
    ResizeZero(out0, CeilDiv8(n));
    out := PackRows(mask, idx, |out0|, BitsOf(out0), out0 + seq(CeilDiv8(n), _ => 0));
  }

  predicate FusedWidth(bw: nat) {
    bw == 12 || 14 <= bw <= 18
  }

  function FusedGuard(bw: nat): Guard {
    if bw == 12 || bw == 14 || bw == 16 then DropLast(16) else DropLast(24)
  }

  lemma FusedGuardFits(bw: nat)
    requires FusedWidth(bw)
    ensures TableOk(Avx2Kernel(bw)) && GuardFits(FusedGuard(bw), Avx2Kernel(bw))
    ensures Width(Avx2Kernel(bw)) == bw && Lanes(Avx2Kernel(bw)) == 8 && BlockBytes(Avx2Kernel(bw)) == bw
  {
    hide TableOk, NarrowShuffle, WideShuffle;
    Avx2TablesOk(bw);
    ShuffleExtents(bw);
    if bw == 12 {
      NarrowShuffleOk(bw);
    } else if bw != 16 {
      WideShuffleOk(bw);
    }
  }

  /** `decode_predicate_bitmap_avx2_bw12` to `_bw18`: vector blocks through a staging buffer, then
      the streaming tail. */
  method FusedAvx2(packed: seq<Byte>, n: nat, bw: nat, mask: seq<Byte>, out0: seq<Byte>)
    returns (r: Outcome, out: seq<Byte>)
    requires FusedWidth(bw) && ZeroOne(mask)
    ensures r == if |mask| < RequiredMask(bw) || |packed| < CeilDiv8(n * bw) then Fail(Decompress) else Pass
    ensures r.Pass? ==> Appended(out0, MaskBits(mask, Unpacked(packed, n, bw)), out)
  {
    hide Mask, Fields, MaskBits, ZeroOne, Appended;
    out := out0;
    if |mask| < RequiredMask(bw) {
      return Fail(Decompress), out;
    }
    if n == 0 {
      NothingAppended(out0, mask, packed, bw);
      return Pass, out;
    }
    if |packed| < CeilDiv8(n * bw) {
      return Fail(Decompress), out;
    }
    out := FusedVector(packed, n, bw, mask, out0);
    return Pass, out;
  }

  lemma NothingAppended(out0: seq<Byte>, mask: seq<Byte>, packed: seq<Byte>, bw: nat)
    ensures Appended(out0, MaskBits(mask, Unpacked(packed, 0, bw)), out0)
  {
    hide BitsOf;
    assert BitsOf(out0) + [] + Zeros(0) == BitsOf(out0);
  }

  function FusedSafe(bw: nat, len: nat, n: nat): nat
    requires FusedWidth(bw)
  {
    SafeBlocks(FusedGuard(bw), bw, len, n / 8)
  }

  lemma FusedSafeInside(bw: nat, len: nat, n: nat)
    requires FusedWidth(bw) && n * bw <= 8 * len
    ensures var safe := FusedSafe(bw, len, n);
            && safe * 8 <= n
            && (safe > 0 ==> (safe - 1) * bw + Extent(Avx2Kernel(bw)) <= len)
  {
    hide TableOk, Lanes, Width, Extent, BlockBytes, Avx2Kernel, GuardFits, SafeBlocks;
    FusedGuardFits(bw);
    FullBlocksInside(n, bw, 8, len);
    GuardIsSafe(FusedGuard(bw), Avx2Kernel(bw), len, n / 8);
  }

  /** The guarded vector pass and its tail. */
  method FusedVector(packed: seq<Byte>, n: nat, bw: nat, mask: seq<Byte>, out0: seq<Byte>) returns (out: seq<Byte>)
    requires FusedWidth(bw) && ZeroOne(mask) && Mask(bw) < |mask| && n * bw <= 8 * |packed|
    ensures Appended(out0, MaskBits(mask, Unpacked(packed, n, bw)), out)
  {
    hide Mask, Fields, BitsOf, MaskBits, ZeroOne, TableOk, Lanes, Width, Extent, BlockBytes, Filled;
    hide Avx2Kernel, GuardFits, FusedSafe, FusedGuard, Zeros;
    FusedGuardFits(bw);
    FusedSafeInside(bw, |packed|, n);
    var safe := FusedSafe(bw, |packed|, n);
    ResizeZero(out0, CeilDiv8(n));
    out := out0 + seq(CeilDiv8(n), _ => 0);
    out := FusedBlocks(Avx2Kernel(bw), packed, safe, bw, mask, |out0|, BitsOf(out0), out);
    var processed := safe * 8;
    FusedSeam(packed, processed, n - processed, bw, mask, BitsOf(out0));
    if n > processed {
      out := FusedTail(packed, processed, n - processed, bw, mask, |out0|,
        BitsOf(out0) + MaskBits(mask, Fields(packed, 0, processed, bw)), out);
    }
  }

  lemma FusedSeam(packed: seq<Byte>, processed: nat, remaining: nat, bw: nat, mask: seq<Byte>, base: seq<nat>)
    ensures base + MaskBits(mask, Unpacked(packed, processed + remaining, bw))
         == base + MaskBits(mask, Fields(packed, 0, processed, bw))
            + MaskBits(mask, Fields(packed, processed * bw, remaining, bw))
  {
    hide Fields, MaskBits, Span;
    SpanIsProduct(processed, bw);
    FieldsSplit(packed, 0, processed, remaining, bw);
    NextBits(base, mask, Fields(packed, 0, processed, bw), Fields(packed, processed * bw, remaining, bw));
  }

  /** `unpack_avx2_bw*_into_staging` with the byte-packing callback. */
  method FusedBlocks(k: Kernel, packed: seq<Byte>, safe: nat, bw: nat, mask: seq<Byte>, start: nat,
                     ghost base: seq<nat>, out0: seq<Byte>)
    returns (out: seq<Byte>)
    requires TableOk(k) && Width(k) == bw && Lanes(k) == 8 && BlockBytes(k) == bw && start + safe <= |out0|
    requires Mask(bw) < |mask| && ZeroOne(mask) && |base| == 8 * start && Filled(out0, base)
    requires safe > 0 ==> (safe - 1) * bw + Extent(k) <= |packed|
    ensures |out| == |out0| && Filled(out, base + MaskBits(mask, Fields(packed, 0, 8 * safe, bw)))
  {
    hide Mask, Fields, MaskBits, PackByte, InMask, ZeroOne, TableOk, Lanes, Width, Extent, BlockBytes, Filled;
    out := out0;
    FieldsUnfold(packed, 0, 0, bw);
    NoRows(base, mask);
    var at := 0;
    for blk := 0 to safe
      invariant at == blk * bw && |out| == |out0|
      invariant Filled(out, base + MaskBits(mask, Fields(packed, 0, 8 * blk, bw)))
    {
      BlockInside(blk, safe, bw, Extent(k), |packed|);
      var staging := RunBlock(k, false, packed, at, []);
      assert [] + Fields(packed, 8 * at, 8, bw) == Fields(packed, 8 * at, 8, bw);
      PackedInMask(mask, packed, 8 * at, 8, bw);
      PackedRows(out, start + blk, mask, Fields(packed, 0, 8 * blk, bw), staging, base);
      BlockFields(packed, blk, bw);
      out := out[start + blk := PackByte(mask, staging)];
      at := at + bw;
    }
  }

  lemma BlockFields(packed: seq<Byte>, blk: nat, bw: nat)
    ensures Fields(packed, 0, 8 * (blk + 1), bw)
         == Fields(packed, 0, 8 * blk, bw) + Fields(packed, 8 * (blk * bw), 8, bw)
  {
    hide Fields, Span;
    SpanIsProduct(8 * blk, bw);
    assert 8 * blk * bw == 8 * (blk * bw);
    FieldsSplit(packed, 0, 8 * blk, 8, bw);
  }

  lemma TailSlice(packed: seq<Byte>, processed: nat, remaining: nat, bw: nat)
    requires processed % 8 == 0 && (processed + remaining) * bw <= 8 * |packed|
    ensures var lo := processed * bw / 8;
            && lo <= |packed|
            && remaining * bw <= 8 * |packed[lo..]|
            && Unpacked(packed[lo..], remaining, bw) == Fields(packed, processed * bw, remaining, bw)
  {
    hide Fields, Span;
    var lo := processed * bw / 8;
    SplitBits(processed + remaining, processed, bw);
    assert processed * bw == 8 * (processed / 8 * bw);
    SpanIsProduct(remaining, bw);
    FieldsSlice(packed, lo, |packed|, 0, remaining, bw);
    assert packed[lo..|packed|] == packed[lo..];
  }

  /** The rows after the last vector block. */
  method FusedTail(packed: seq<Byte>, processed: nat, remaining: nat, bw: nat, mask: seq<Byte>, start: nat,
                   ghost done: seq<nat>, out0: seq<Byte>)
    returns (out: seq<Byte>)
    requires 1 <= bw <= 32 && processed % 8 == 0 && (processed + remaining) * bw <= 8 * |packed|
    requires ZeroOne(mask) && |done| == 8 * start + processed && |done| + remaining <= 8 * |out0|
    requires Filled(out0, done)
    ensures |out| == |out0| && Filled(out, done + MaskBits(mask, Fields(packed, processed * bw, remaining, bw)))
  {
    hide Mask, Fields, MaskBits, Filled;
    var lo := processed * bw / 8;
    TailSlice(packed, processed, remaining, bw);
    var idx := StreamUnpack(packed[lo..], remaining, bw, 64, []);
    assert [] + Fields(packed, processed * bw, remaining, bw) == Fields(packed, processed * bw, remaining, bw);
    MaskBitsZeroOne(mask, idx);
    out := OrRows(start, processed, MaskBits(mask, idx), done, out0);
  }

  lemma MaskBitsZeroOne(mask: seq<Byte>, idx: seq<nat>)
    requires ZeroOne(mask)
    ensures forall k :: 0 <= k < |idx| ==> MaskBits(mask, idx)[k] <= 1
  {
  }

  /** `fused_bitmap_chunk` for an empty output vector; `avx2` is the CPU dispatch. */
  method FusedBitmapChunk(chunk: seq<Byte>, bw: nat, n: nat, mask: seq<Byte>, avx2: bool)
    returns (r: Outcome, out: seq<Byte>)
    requires 1 <= bw < 32 && n * bw <= 8 * |chunk| && Mask(bw) < |mask| && ZeroOne(mask)
    ensures r.Pass? && |out| == CeilDiv8(n) && Filled(out, MaskBits(mask, Unpacked(chunk, n, bw)))
  {
    hide Mask, Fields, MaskBits, ZeroOne, Filled;
    if avx2 && FusedWidth(bw) {
      r, out := FusedAvx2(chunk, n, bw, mask, []);
    } else {
      r, out := FusedPortable(chunk, n, bw, mask, []);
    }
    assert BitsOf([]) == [];
    assert [] + MaskBits(mask, Unpacked(chunk, n, bw)) == MaskBits(mask, Unpacked(chunk, n, bw));
  }

  // ----- runs and pages -----

  /** The bits of one run, into a bitmap whose rows up to `row` are filled. */
  method EmitRunBits(run: Run, m: nat, bw: nat, mask: seq<Byte>, avx2: bool, start: nat, row: nat,
                     ghost done: seq<nat>, out0: seq<Byte>)
    returns (r: Outcome, out: seq<Byte>)
    requires 1 <= bw < 32 && ZeroOne(mask) && Mask(bw) < |mask| && m <= RunLen(run)
    requires run.Packed? ==> |run.chunk| == run.groups * bw
    requires run.Repeat? ==> run.index <= Mask(bw)
    requires Filled(out0, done) && |done| == 8 * start + row && |done| + m <= 8 * |out0|
    ensures r.Pass? && |out| == |out0| && Filled(out, done + MaskBits(mask, RunPrefix(run, m, bw)))
  {
    hide Mask, Fields, MaskBits, ZeroOne, Filled;
    match run
    case Packed(groups, chunk) =>
      RunBytes(m, groups, bw);
      var tmp;
      r, tmp := FusedBitmapChunk(chunk, bw, m, mask, avx2);
      if row % 8 == 0 && m % 8 == 0 {
        var dst := start + row / 8;
        FillBytes(out0, dst, tmp, done, MaskBits(mask, Unpacked(chunk, m, bw)));
        out := out0[..dst] + tmp + out0[dst + |tmp|..];
      } else {
        var bits := TmpBits(tmp, m, MaskBits(mask, Unpacked(chunk, m, bw)));
        MaskBitsZeroOne(mask, Unpacked(chunk, m, bw));
        out := OrRows(start, row, bits, done, out0);
      }
    case Repeat(_, index) =>
      r, out := Pass, out0;
      RepeatBits(mask, run, m, bw);
      if mask[index] != 0 {
        out := SplatOnes(start, row, row + m, done, out0);
      } else {
        FillZeros(out0, done, m);
      }
  }

  /** `(tmp[i / 8] >> (i % 8)) & 1` for each row of the temporary bitmap. */
  method TmpBits(tmp: seq<Byte>, m: nat, ghost bits: seq<nat>) returns (r: seq<nat>)
    requires |bits| == m && |tmp| == CeilDiv8(m) && Filled(tmp, bits)
    ensures r == bits
  {
    hide Shr;
    r := [];
    for i := 0 to m
      invariant r == bits[..i]
    {
      assert BitsOf(tmp)[i] == bits[i];
      r := r + [Shr(tmp[i / 8], i % 8) % 2];
    }
  }

  lemma RepeatBits(mask: seq<Byte>, run: Run, m: nat, bw: nat)
    requires run.Repeat? && run.index < |mask| && ZeroOne(mask)
    ensures MaskBits(mask, RunPrefix(run, m, bw)) == if mask[run.index] != 0 then Ones(m) else Zeros(m)
  {
  }

  /** `decode_rle_dictionary_predicate_bitmap`. */
  method PredicateBitmapInto(body: seq<Byte>, n: nat, mask: seq<Byte>, avx2: bool, out0: seq<Byte>)
    returns (r: Outcome, out: seq<Byte>)
    requires ZeroOne(mask)
    ensures r == Status(PageBits(body, mask, n))
    ensures r.Pass? ==> Appended(out0, PageBits(body, mask, n).value, out)
    ensures out0 <= out
  {
    hide Mask, BitsOf, MaskBits, ZeroOne, GuardedStream, ReadRun, RunPrefix, Filled;
    out := out0;
    if |body| == 0 {
      return Fail(EmptyDictPageBody), out;
    }
    var bw: nat := body[0];
    if bw > 32 {
      return Fail(BitWidthOutOfRange(bw)), out;
    }
    if bw >= 32 {
      return Fail(BitWidthOutOfRange(bw)), out;
    }
    var required := if bw == 0 then 1 else Up(1, bw);
    PowerIsMask(bw);
    if |mask| < required {
      return Fail(Decompress), out;
    }
    if n == 0 {
      NothingFilled(out0);
      return Pass, out;
    }
    var start := |out0|;
    ResizeZero(out0, CeilDiv8(n));
    out := out0 + seq(CeilDiv8(n), _ => 0);
    if bw == 0 {
      out := ConstantBits(mask, n, start, BitsOf(out0), out);
      FilledKeeps(out0, MaskBits(mask, seq(n, _ => 0)), out);
      return Pass, out;
    }
    var cur := new Cursor(body[1..]);
    var emitted := 0;
    ghost var whole := GuardedStream(cur.buf, 0, bw, required, n);
    ghost var done := [];
    PrependNothing(whole);
    NoRows(BitsOf(out0), mask);
    while emitted < n
      invariant cur.Valid() && fresh(cur) && emitted <= n && |done| == emitted
      invariant |out| == start + CeilDiv8(n) && Filled(out, BitsOf(out0) + MaskBits(mask, done))
      invariant whole == Prepend(done, GuardedStream(cur.buf, cur.pos, bw, required, n - emitted))
      decreases |cur.buf| - cur.pos
    {
      GuardedStep(cur.buf, cur.pos, bw, required, n - emitted, done, whole);
      FilledKeeps(out0, MaskBits(mask, done), out);
      ghost var at := cur.pos;
      var read := ReadRunFrom(cur, bw, 32);
      if read.Err? {
        return Fail(read.error), out;
      }
      var run := read.value;
      if run.Packed? {
        PackedChunkSize(cur.buf, at, bw);
      } else if run.index >= required {
        return Fail(DictIndexOutOfRange(run.index, required)), out;
      }
      var toEmit := Min(n - emitted, RunLen(run));
      r, out := EmitRunBits(run, toEmit, bw, mask, avx2, start, emitted, BitsOf(out0) + MaskBits(mask, done), out);
      NextBits(BitsOf(out0), mask, done, RunPrefix(run, toEmit, bw));
      done := done + RunPrefix(run, toEmit, bw);
      emitted := emitted + toEmit;
    }
    GuardedDone(cur.buf, cur.pos, bw, required);
    FilledKeeps(out0, MaskBits(mask, done), out);
    assert done + [] == done;
    return Pass, out;
  }

  lemma NothingFilled(out0: seq<Byte>)
    ensures Filled(out0, BitsOf(out0) + [])
  {
    assert BitsOf(out0) + [] + Zeros(0) == BitsOf(out0);
  }

  /** `1usize << bit_width`. */
  lemma {:induction false} PowerIsMask(bw: nat)
    ensures Up(1, bw) == Mask(bw) + 1
  {
    if bw > 0 {
      PowerIsMask(bw - 1);
    }
  }

  /** Width 0: every row shows the first mask entry. */
  method ConstantBits(mask: seq<Byte>, n: nat, start: nat, ghost base: seq<nat>, out0: seq<Byte>)
    returns (out: seq<Byte>)
    requires |mask| > 0 && ZeroOne(mask) && |base| == 8 * start && |base| + n <= 8 * |out0| && Filled(out0, base)
    ensures |out| == |out0| && Filled(out, base + MaskBits(mask, seq(n, _ => 0)))
  {
    hide Filled;
    out := out0;
    if mask[0] != 0 {
      assert MaskBits(mask, seq(n, _ => 0)) == Ones(n);
      out := SplatOnes(start, 0, n, base, out);
    } else {
      assert MaskBits(mask, seq(n, _ => 0)) == Zeros(n);
      FillZeros(out, base, n);
    }
  }

  lemma GuardedStep(buf: seq<Byte>, pos: nat, bw: nat, limit: nat, n: nat, done: seq<nat>, whole: Result<seq<nat>>)
    requires pos <= |buf| && n > 0 && whole == Prepend(done, GuardedStream(buf, pos, bw, limit, n))
    ensures var run := ReadRun(buf, pos, bw);
            if run.Err? then whole == Err(run.error)
            else if run.value.0.Repeat? && run.value.0.index >= limit then
              whole == Err(DictIndexOutOfRange(run.value.0.index, limit))
            else
              var m := Min(n, RunLen(run.value.0));
              whole == Prepend(done + RunPrefix(run.value.0, m, bw), GuardedStream(buf, run.value.1, bw, limit, n - m))
  {
    hide ReadRun, RunPrefix;
    var run := ReadRun(buf, pos, bw);
    if run.Ok? {
      var m := Min(n, RunLen(run.value.0));
      PrependTwice(done, RunPrefix(run.value.0, m, bw), GuardedStream(buf, run.value.1, bw, limit, n - m));
    }
  }

  lemma GuardedDone(buf: seq<Byte>, pos: nat, bw: nat, limit: nat)
    requires pos <= |buf|
    ensures GuardedStream(buf, pos, bw, limit, 0) == Ok([])
  {
  }
}
