/** The scalar bit-unpackers: a loop over 32-value chunks that assembles one byte window per value,
    and a streaming bit buffer for the values after the last full chunk. `width` is the accumulator's
    register width: 64 for u32 output (bit widths up to 32), 128 for u64 output (up to 64). Shifts
    are register shifts (`Shl`), so a value pushed past the register's top would be lost. */
module Bitpack {
  import opened Bits
  import opened Wire

  predicate RegisterFits(bw: nat, width: nat) {
    1 <= bw && ((width == 64 && bw <= 32) || (width == 128 && bw <= 64))
  }

  /** A window never needs more than 40 bits (u64 register) or 72 bits (u128 register). */
  lemma WindowWidth(bw: nat, width: nat, bitInByte: nat)
    requires RegisterFits(bw, width) && bitInByte < 8
    ensures 8 * CeilDiv8(bw + bitInByte) <= (if width == 64 then 40 else 72) <= width - 8
  {
  }

  /** Bits `[startBit, startBit + bw)` of a chunk, read through the smallest covering byte window. */
  method ReadWindow(chunk: seq<Byte>, startBit: nat, bw: nat, width: nat) returns (v: nat)
    requires RegisterFits(bw, width) && startBit + bw <= 8 * |chunk|
    ensures v == BitField(chunk, startBit, bw)
  {
    var startByte := startBit / 8;
    var bitInByte := startBit % 8;
    var bytesNeeded := CeilDiv8(bw + bitInByte);
    WindowWidth(bw, width, bitInByte);
    var acc := 0;
    for j := 0 to bytesNeeded
      invariant acc == BitField(chunk, 8 * startByte, 8 * j)
    {
      PushByte(chunk, 8 * startByte, 8 * j, startByte + j, width);
      acc := Or(acc, Shl(chunk[startByte + j], j * 8, width));
    }
    WindowField(chunk, 8 * startByte, 8 * bytesNeeded, bitInByte, bw);
    v := And(Shr(acc, bitInByte), Mask(bw));
  }

  /** `buf |= (packed[byteIdx] as uW) << bits` while fewer than `bw` bits are buffered. */
  method Refill(packed: seq<Byte>, buf0: nat, bits0: nat, byteIdx0: nat, bw: nat, width: nat)
    returns (buf: nat, bits: nat, byteIdx: nat)
    requires RegisterFits(bw, width) && bits0 < 8 && bits0 <= 8 * byteIdx0
    requires buf0 == BitField(packed, 8 * byteIdx0 - bits0, bits0)
    requires 8 * byteIdx0 - bits0 + bw <= 8 * |packed|
    ensures bw <= bits < bw + 8 && 8 * byteIdx - bits == 8 * byteIdx0 - bits0
    ensures buf == BitField(packed, 8 * byteIdx - bits, bits)
  {
    buf, bits, byteIdx := buf0, bits0, byteIdx0;
    while bits < bw
      invariant bits < bw + 8 && 8 * byteIdx - bits == 8 * byteIdx0 - bits0
      invariant buf == BitField(packed, 8 * byteIdx - bits, bits)
      decreases bw - bits
    {
      PushByte(packed, 8 * byteIdx - bits, bits, byteIdx, width);
      buf := Or(buf, Shl(packed[byteIdx], bits, width));
      byteIdx := byteIdx + 1;
      bits := bits + 8;
    }
  }

  /** The next value, `buf & mask`, and what stays buffered, `buf >> bw`. */
  method Pop(ghost packed: seq<Byte>, ghost start: nat, buf0: nat, bits0: nat, bw: nat)
    returns (v: nat, buf: nat, bits: nat)
    requires bw <= bits0 && buf0 == BitField(packed, start, bits0)
    ensures v == BitField(packed, start, bw) && bits == bits0 - bw
    ensures buf == BitField(packed, start + bw, bits)
  {
    PopValue(packed, start, bits0, bw);
    v, buf, bits := And(buf0, Mask(bw)), Shr(buf0, bw), bits0 - bw;
  }

  /** The streaming bit buffer: `scalar_bw_n`, `unpack_8_indices` and the tails of the unpackers. */
  method StreamUnpack(packed: seq<Byte>, n: nat, bw: nat, width: nat, out0: seq<nat>)
    returns (out: seq<nat>)
    requires RegisterFits(bw, width) && n * bw <= 8 * |packed|
    ensures out == out0 + Unpacked(packed, n, bw)
  {
    hide BitField, Fields, Span;
    SpanIsProduct(n, bw);
    out := out0;
    var buf: nat, bits: nat, byteIdx: nat := 0, 0, 0;
    EmptyField(packed, 0);
    for k := 0 to n
      invariant bits < 8 && bits <= 8 * byteIdx
      invariant 8 * byteIdx - bits + Span(n - k, bw) <= 8 * |packed|
      invariant buf == BitField(packed, 8 * byteIdx - bits, bits)
      invariant out + Fields(packed, 8 * byteIdx - bits, n - k, bw) == out0 + Unpacked(packed, n, bw)
    {
      FieldsUnfold(packed, 8 * byteIdx - bits, n - k, bw);
      buf, bits, byteIdx := Refill(packed, buf, bits, byteIdx, bw, width);
      var v;
      v, buf, bits := Pop(packed, 8 * byteIdx - bits, buf, bits, bw);
      out := out + [v];
    }
    FieldsUnfold(packed, 8 * byteIdx - bits, 0, bw);
  }

  method UnpackChunk(chunk: seq<Byte>, bw: nat, width: nat, out0: seq<nat>) returns (out: seq<nat>)
    requires RegisterFits(bw, width) && |chunk| == 4 * bw
    ensures out == out0 + Unpacked(chunk, 32, bw)
  {
    hide BitField, Fields, Span;
    out := out0;
    SpanOfChunk(bw);
    for i := 0 to 32
      invariant i * bw + Span(32 - i, bw) == 32 * bw
      invariant out + Fields(chunk, i * bw, 32 - i, bw) == out0 + Unpacked(chunk, 32, bw)
    {
      FieldsUnfold(chunk, i * bw, 32 - i, bw);
      assert (i + 1) * bw == i * bw + bw;
      var v := ReadWindow(chunk, i * bw, bw, width);
      out := out + [v];
    }
    FieldsUnfold(chunk, 32 * bw, 0, bw);
  }

  /** `unpack_chunks_indices` and `unpack_chunks_indices64`. */
  method UnpackChunksIndices(packed: seq<Byte>, n: nat, bw: nat, width: nat, out0: seq<nat>)
    returns (out: seq<nat>)
    requires RegisterFits(bw, width) && n * bw <= 8 * |packed|
    ensures out == out0 + Unpacked(packed, n, bw)
  {
    hide BitField, Fields, Span;
    SpanIsProduct(n, bw);
    var chunkBytes := bw * 32 / 8;
    var fullChunks, tail := n / 32, n % 32;
    var packedIdx: nat := 0;
    out := out0;
    for c := 0 to fullChunks
      invariant 0 <= packedIdx && 8 * packedIdx + Span(n - 32 * c, bw) <= 8 * |packed|
      invariant out + Fields(packed, 8 * packedIdx, n - 32 * c, bw) == out0 + Unpacked(packed, n, bw)
    {
      PeelChunk(packed, packedIdx, n - 32 * c - 32, bw);
      out := UnpackChunk(packed[packedIdx..packedIdx + chunkBytes], bw, width, out);
      packedIdx := packedIdx + chunkBytes;
    }
    if tail > 0 {
      SpanIsProduct(tail, bw);
      var tailBytes := CeilDiv8(tail * bw);
      FieldsSlice(packed, packedIdx, packedIdx + tailBytes, 0, tail, bw);
      out := StreamUnpack(packed[packedIdx..packedIdx + tailBytes], tail, bw, width, out);
    } else {
      FieldsUnfold(packed, 8 * packedIdx, 0, bw);
    }
  }

  /** The fields from byte `lo` on are those of the next chunk followed by the rest. */
  lemma PeelChunk(packed: seq<Byte>, lo: nat, rest: nat, bw: nat)
    requires 8 * lo + Span(32 + rest, bw) <= 8 * |packed|
    ensures lo + 4 * bw <= |packed|
    ensures 8 * (lo + 4 * bw) + Span(rest, bw) <= 8 * |packed|
    ensures Fields(packed, 8 * lo, 32 + rest, bw)
         == Unpacked(packed[lo..lo + 4 * bw], 32, bw) + Fields(packed, 8 * (lo + 4 * bw), rest, bw)
  {
    hide Fields, Span, BitField;
    SpanSplit(32, rest, bw);
    SpanIsProduct(32, bw);
    FieldsSplit(packed, 8 * lo, 32, rest, bw);
    FieldsSlice(packed, lo, lo + 4 * bw, 0, 32, bw);
  }

  lemma SpanOfChunk(bw: nat)
    ensures Span(32, bw) == 32 * bw
  {
    hide Span;
    SpanIsProduct(32, bw);
  }

  // ----- entry points -----

  /** `unpack_indices_into` (`maxWidth` 32) and `unpack_indices64_into` (`maxWidth` 64). */
  method UnpackIndicesInto(packed: seq<Byte>, n: nat, bw: nat, maxWidth: nat, out0: seq<nat>)
    returns (r: Outcome, out: seq<nat>)
    requires maxWidth == 32 || maxWidth == 64
    requires bw <= maxWidth ==> n * bw <= 8 * |packed|
    ensures bw > maxWidth ==> r == Fail(BitWidthOutOfRange(bw)) && out == out0
    ensures bw <= maxWidth ==> r == Pass && out == out0 + Unpacked(packed, n, bw)
  {
    out := out0;
    if bw > maxWidth {
      return Fail(BitWidthOutOfRange(bw)), out;
    }
    if n == 0 {
      return Pass, out;
    }
    if bw == 0 {
      ZeroWidth(packed, 0, n);
      out := out + seq(n, _ => 0);
      return Pass, out;
    }
    out := UnpackChunksIndices(packed, n, bw, 2 * maxWidth, out);
    return Pass, out;
  }

  lemma {:induction false} ZeroWidth(p: seq<Byte>, s: nat, n: nat)
    ensures Fields(p, s, n, 0) == seq(n, _ => 0)
    decreases n
  {
    if n > 0 {
      ZeroWidth(p, s, n - 1);
    }
  }

  // ----- unpacking fused with a dictionary lookup -----

  /** The two-pass meaning of a lookup: the first index outside the dictionary is the error. */
  function LookupAll<T>(dict: seq<T>, idx: seq<nat>): Result<seq<T>> {
    if idx == [] then Ok([])
    else if idx[0] >= |dict| then Err(DictIndexOutOfRange(idx[0], |dict|))
    else Prepend([dict[idx[0]]], LookupAll(dict, idx[1..]))
  }

  /** A lookup succeeds exactly when every index is inside the dictionary. */
  lemma {:induction false} LookupAllMeaning<T>(dict: seq<T>, idx: seq<nat>)
    ensures LookupAll(dict, idx).Ok? <==> forall k :: 0 <= k < |idx| ==> idx[k] < |dict|
    ensures LookupAll(dict, idx).Ok? ==>
              && |LookupAll(dict, idx).value| == |idx|
              && forall k :: 0 <= k < |idx| ==> LookupAll(dict, idx).value[k] == dict[idx[k]]
  {
    if idx != [] {
      LookupAllMeaning(dict, idx[1..]);
      assert forall k :: 0 <= k < |idx| - 1 ==> idx[1..][k] == idx[k + 1];
      assert forall k :: 0 < k < |idx| ==> idx[k] == idx[1..][k - 1];
    }
  }

  /** A failed lookup names the first index outside the dictionary. */
  lemma {:induction false} LookupFailsAt<T>(dict: seq<T>, idx: seq<nat>, k: nat)
    requires k < |idx| && idx[k] >= |dict| && forall j :: 0 <= j < k ==> idx[j] < |dict|
    ensures LookupAll(dict, idx) == Err(DictIndexOutOfRange(idx[k], |dict|))
    decreases k
  {
    if k > 0 {
      LookupFailsAt(dict, idx[1..], k - 1);
    }
  }

  lemma {:induction false} LookupAppend<T>(dict: seq<T>, a: seq<nat>, b: seq<nat>)
    ensures LookupAll(dict, a + b)
         == if LookupAll(dict, a).Ok? then Prepend(LookupAll(dict, a).value, LookupAll(dict, b))
            else LookupAll(dict, a)
    decreases |a|
  {
    if a == [] {
      assert a + b == b;
      PrependNothing(LookupAll(dict, b));
    } else {
      assert (a + b)[1..] == a[1..] + b;
      LookupAppend(dict, a[1..], b);
      if a[0] < |dict| && LookupAll(dict, a[1..]).Ok? {
        PrependTwice([dict[a[0]]], LookupAll(dict, a[1..]).value, LookupAll(dict, b));
      }
    }
  }

  /** `lookup_dict`. */
  method LookupDict<T>(dict: seq<T>, indices: seq<nat>) returns (r: Result<seq<T>>)
    ensures r == LookupAll(dict, indices)
  {
    var out := [];
    PrependNothing(LookupAll(dict, indices));
    assert indices[0..] == indices;
    for k := 0 to |indices|
      invariant LookupAll(dict, indices) == Prepend(out, LookupAll(dict, indices[k..]))
    {
      assert indices[k..][1..] == indices[k + 1..];
      if indices[k] >= |dict| {
        return Err(DictIndexOutOfRange(indices[k], |dict|));
      }
      PrependTwice(out, [dict[indices[k]]], LookupAll(dict, indices[k + 1..]));
      out := out + [dict[indices[k]]];
    }
    assert indices[|indices|..] == [] && out + [] == out;
    return Ok(out);
  }

  /** The lookup of `n` fields from bit `s` on. */
  function LookupFields<T>(dict: seq<T>, p: seq<Byte>, s: nat, n: nat, bw: nat): Result<seq<T>> {
    LookupAll(dict, Fields(p, s, n, bw))
  }

  lemma LookupNone<T>(dict: seq<T>, p: seq<Byte>, s: nat, bw: nat)
    ensures LookupFields(dict, p, s, 0, bw) == Ok([])
  {
  }

  /** One index looked up and appended, or the error that ends the whole run. */
  lemma LookupStep<T>(dict: seq<T>, p: seq<Byte>, s: nat, n: nat, bw: nat, done: seq<T>, whole: Result<seq<T>>)
    requires n > 0 && whole == Prepend(done, LookupFields(dict, p, s, n, bw))
    ensures var idx := BitField(p, s, bw);
            if idx >= |dict| then whole == Err(DictIndexOutOfRange(idx, |dict|))
            else whole == Prepend(done + [dict[idx]], LookupFields(dict, p, s + bw, n - 1, bw))
  {
    var idx := BitField(p, s, bw);
    FieldsUnfold(p, s, n, bw);
    assert Fields(p, s, n, bw)[1..] == Fields(p, s + bw, n - 1, bw);
    if idx < |dict| {
      PrependTwice(done, [dict[idx]], LookupFields(dict, p, s + bw, n - 1, bw));
    }
  }

  /** One 32-value chunk; with `boundsSafe` the per-value check is skipped. */
  method LookupChunk<T>(chunk: seq<Byte>, bw: nat, dict: seq<T>, boundsSafe: bool, out0: seq<T>)
    returns (r: Outcome, out: seq<T>)
    requires RegisterFits(bw, 64) && |chunk| == 4 * bw && (boundsSafe ==> Mask(bw) < |dict|)
    ensures r == Status(LookupFields(dict, chunk, 0, 32, bw))
    ensures out == out0 + if r.Pass? then LookupFields(dict, chunk, 0, 32, bw).value else []
  {
    hide BitField, Fields, Span, LookupAll;
    ghost var whole := LookupFields(dict, chunk, 0, 32, bw);
    PrependNothing(whole);
    var done := [];
    SpanOfChunk(bw);
    for i := 0 to 32
      invariant i * bw + Span(32 - i, bw) == 32 * bw
      invariant whole == Prepend(done, LookupFields(dict, chunk, i * bw, 32 - i, bw))
    {
      FieldsUnfold(chunk, i * bw, 32 - i, bw);
      assert (i + 1) * bw == i * bw + bw;
      LookupStep(dict, chunk, i * bw, 32 - i, bw, done, whole);
      BitFieldBound(chunk, i * bw, bw);
      var idx := ReadWindow(chunk, i * bw, bw, 64);
      if !boundsSafe && idx >= |dict| {
        return Fail(DictIndexOutOfRange(idx, |dict|)), out0;
      }
      done := done + [dict[idx]];
    }
    LookupNone(dict, chunk, 32 * bw, bw);
    return Pass, out0 + done;
  }

  /** The tail of the fused unpacker: the streaming buffer with a lookup after each value. */
  method LookupTail<T>(packed: seq<Byte>, n: nat, bw: nat, dict: seq<T>, boundsSafe: bool, out0: seq<T>)
    returns (r: Outcome, out: seq<T>)
    requires RegisterFits(bw, 64) && n * bw <= 8 * |packed| && (boundsSafe ==> Mask(bw) < |dict|)
    ensures r == Status(LookupFields(dict, packed, 0, n, bw))
    ensures r.Pass? ==> out == out0 + LookupFields(dict, packed, 0, n, bw).value
    ensures out0 <= out
  {
    hide BitField, Fields, Span, LookupAll, LookupFields, Mask;
    SpanIsProduct(n, bw);
    EmptyField(packed, 0);
    ghost var whole := LookupFields(dict, packed, 0, n, bw);
    PrependNothing(whole);
    var done := [];
    var buf: nat, bits: nat, byteIdx: nat := 0, 0, 0;
    ghost var at: nat := 0;
    for k := 0 to n
      invariant bits < 8 && at + bits == 8 * byteIdx
      invariant at + Span(n - k, bw) <= 8 * |packed|
      invariant buf == BitField(packed, at, bits)
      invariant whole == Prepend(done, LookupFields(dict, packed, at, n - k, bw))
    {
      FieldsUnfold(packed, at, n - k, bw);
      BitFieldBound(packed, at, bw);
      LookupStep(dict, packed, at, n - k, bw, done, whole);
      buf, bits, byteIdx := Refill(packed, buf, bits, byteIdx, bw, 64);
      var idx;
      idx, buf, bits := Pop(packed, at, buf, bits, bw);
      if !boundsSafe && idx >= |dict| {
        return Fail(DictIndexOutOfRange(idx, |dict|)), out0 + done;
      }
      done := done + [dict[idx]];
      at := at + bw;
    }
    LookupNone(dict, packed, at, bw);
    return Pass, out0 + done;
  }

  /** `unpack_chunks`. */
  method UnpackChunks<T>(packed: seq<Byte>, n: nat, bw: nat, dict: seq<T>, out0: seq<T>)
    returns (r: Outcome, out: seq<T>)
    requires RegisterFits(bw, 64) && n * bw <= 8 * |packed|
    ensures r == Status(LookupAll(dict, Unpacked(packed, n, bw)))
    ensures r.Pass? ==> out == out0 + LookupAll(dict, Unpacked(packed, n, bw)).value
    ensures out0 <= out
  {
    hide BitField, Fields, Span, LookupAll;
    SpanIsProduct(n, bw);
    var boundsSafe := Mask(bw) < |dict|;
    var chunkBytes := bw * 32 / 8;
    var fullChunks, tail := n / 32, n % 32;
    var packedIdx: nat := 0;
    out := out0;
    ghost var whole := LookupFields(dict, packed, 0, n, bw);
    ghost var done := [];
    PrependNothing(whole);
    for c := 0 to fullChunks
      invariant 0 <= packedIdx && 8 * packedIdx + Span(n - 32 * c, bw) <= 8 * |packed|
      invariant out == out0 + done
      invariant whole == Prepend(done, LookupFields(dict, packed, 8 * packedIdx, n - 32 * c, bw))
    {
      PeelLookup(dict, packed, packedIdx, n - 32 * c - 32, bw, done, whole);
      ghost var part := LookupFields(dict, packed[packedIdx..packedIdx + chunkBytes], 0, 32, bw);
      r, out := LookupChunk(packed[packedIdx..packedIdx + chunkBytes], bw, dict, boundsSafe, out);
      if r.Fail? {
        return;
      }
      done := done + part.value;
      packedIdx := packedIdx + chunkBytes;
    }
    r := Pass;
    if tail > 0 {
      SpanIsProduct(tail, bw);
      var tailBytes := CeilDiv8(tail * bw);
      FieldsSlice(packed, packedIdx, packedIdx + tailBytes, 0, tail, bw);
      r, out := LookupTail(packed[packedIdx..packedIdx + tailBytes], tail, bw, dict, boundsSafe, out);
    } else {
      LookupNone(dict, packed, 8 * packedIdx, bw);
    }
  }

  lemma PeelLookup<T>(dict: seq<T>, packed: seq<Byte>, lo: nat, rest: nat, bw: nat, done: seq<T>, whole: Result<seq<T>>)
    requires 8 * lo + Span(32 + rest, bw) <= 8 * |packed|
    requires whole == Prepend(done, LookupFields(dict, packed, 8 * lo, 32 + rest, bw))
    ensures lo + 4 * bw <= |packed|
    ensures 8 * (lo + 4 * bw) + Span(rest, bw) <= 8 * |packed|
    ensures var part := LookupFields(dict, packed[lo..lo + 4 * bw], 0, 32, bw);
            if part.Err? then whole == part
            else whole == Prepend(done + part.value, LookupFields(dict, packed, 8 * (lo + 4 * bw), rest, bw))
  {
    hide Fields, Span, LookupAll;
    PeelChunk(packed, lo, rest, bw);
    var part := Unpacked(packed[lo..lo + 4 * bw], 32, bw);
    var others := Fields(packed, 8 * (lo + 4 * bw), rest, bw);
    LookupAppend(dict, part, others);
    if LookupAll(dict, part).Ok? {
      PrependTwice(done, LookupAll(dict, part).value, LookupAll(dict, others));
    }
  }

  /** `unpack_lookup_into`. */
  method UnpackLookupInto<T>(packed: seq<Byte>, n: nat, bw: nat, dict: seq<T>, out0: seq<T>)
    returns (r: Outcome, out: seq<T>)
    requires bw <= 32 ==> n * bw <= 8 * |packed|
    ensures bw > 32 ==> r == Fail(BitWidthOutOfRange(bw)) && out == out0
    ensures bw <= 32 ==> r == Status(LookupAll(dict, Unpacked(packed, n, bw)))
    ensures r.Pass? ==> out == out0 + LookupAll(dict, Unpacked(packed, n, bw)).value
    ensures out0 <= out
  {
    out := out0;
    if bw > 32 {
      return Fail(BitWidthOutOfRange(bw)), out;
    }
    if n == 0 {
      return Pass, out;
    }
    if bw == 0 {
      ZeroWidth(packed, 0, n);
      if |dict| == 0 {
        return Fail(DictIndexOutOfRange(0, 0)), out;
      }
      LookupAllMeaning(dict, seq(n, _ => 0));
      assert LookupAll(dict, seq(n, _ => 0)).value == seq(n, _ => dict[0]);
      out := out + seq(n, _ => dict[0]);
      return Pass, out;
    }
    r, out := UnpackChunks(packed, n, bw, dict, out);
  }

  /** The unchecked branch is justified by the field width alone. */
  lemma BoundsSafeIsJustified<T>(packed: seq<Byte>, n: nat, bw: nat, dict: seq<T>)
    requires Mask(bw) < |dict|
    ensures LookupAll(dict, Unpacked(packed, n, bw)).Ok?
  {
    forall k | 0 <= k < n
      ensures Unpacked(packed, n, bw)[k] < |dict|
    {
      FieldsAt(packed, 0, n, bw, k);
    }
    LookupAllMeaning(dict, Unpacked(packed, n, bw));
  }
}
