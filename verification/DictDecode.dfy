/** The page decoders of `dict.rs` that produce indices or dictionary values. */
module DictDecode {
  import opened Bits
  import opened Wire
  import opened Bitpack
  import opened DictStream

  /** `idx |= (value_chunk[j] as u32) << (j * 8)`, in a register of `width` bits. */
  method ReadRepeatedIndex(chunk: seq<Byte>, width: nat) returns (idx: nat)
    requires 8 * |chunk| <= width
    ensures idx == LeNat(chunk)
  {
    hide BitField;
    idx := 0;
    EmptyField(chunk, 0);
    for j := 0 to |chunk|
      invariant idx == BitField(chunk, 0, 8 * j)
    {
      PushByte(chunk, 0, 8 * j, j, width);
      idx := Or(idx, Shl(chunk[j], j * 8, width));
    }
    LeNatIsField(chunk);
  }

  /** The run header and its bytes, as each walker reads them. */
  method ReadRunFrom(cur: Cursor, bw: nat, width: nat) returns (r: Result<Run>)
    requires cur.Valid() && 1 <= bw <= width && (width == 32 || width == 64)
    modifies cur
    ensures cur.Valid()
    ensures r == First(ReadRun(cur.buf, old(cur.pos), bw))
    ensures r.Ok? ==> cur.pos == ReadRun(cur.buf, old(cur.pos), bw).value.1
  {
    hide UvarintAt, LeNat, PackedBytes;
    var valueBytes := CeilDiv8(bw);
    var header :- cur.ReadUvarint();
    var count := header / 2;
    if header % 2 == 1 {
      var chunk :- cur.Take(PackedBytes(count, bw));
      return Ok(Packed(count, chunk));
    } else {
      var chunk :- cur.Take(valueBytes);
      var idx := ReadRepeatedIndex(chunk, width);
      return Ok(Repeat(count, idx));
    }
  }

  /** The first `m` indices of a run, as the index decoder emits them. */
  method EmitRun(run: Run, m: nat, bw: nat, out0: seq<nat>) returns (out: seq<nat>)
    requires 1 <= bw <= 32 && m <= RunLen(run)
    requires run.Packed? ==> |run.chunk| == run.groups * bw
    ensures out == out0 + RunPrefix(run, m, bw)
  {
    hide Fields;
    match run
    case Packed(groups, chunk) =>
      RunBytes(m, groups, bw);
      var r;
      r, out := UnpackIndicesInto(chunk, m, bw, 32, out0);
    case Repeat(_, index) =>
      out := out0;
      for k := 0 to m
        invariant out == out0 + seq(k, _ => index)
      {
        out := out + [index];
      }
  }

  lemma RunBytes(m: nat, groups: nat, bw: nat)
    requires m <= 8 * groups
    ensures m * bw <= 8 * (groups * bw)
  {
    assert m * bw <= 8 * groups * bw;
  }

  /** `decode_rle_dictionary_indices_into`. */
  method DecodeIndicesInto(body: seq<Byte>, n: nat, out0: seq<nat>) returns (r: Outcome, out: seq<nat>)
    ensures r == Status(PageIndices(body, n))
    ensures out0 <= out
    ensures r.Pass? ==> out == out0 + PageIndices(body, n).value
  {
    hide IndexStream, ReadRun, RunPrefix;
    out := out0;
    if |body| == 0 {
      return Fail(EmptyDictPageBody), out;
    }
    var bw: nat := body[0];
    if bw > 32 {
      return Fail(BitWidthOutOfRange(bw)), out;
    }
    if n == 0 {
      return Pass, out;
    }
    if bw == 0 {
      return Pass, out + seq(n, _ => 0);
    }
    var cur := new Cursor(body[1..]);
    var emitted := 0;
    ghost var whole := IndexStream(cur.buf, 0, bw, n);
    ghost var done := [];
    PrependNothing(whole);
    while emitted < n
      invariant cur.Valid() && fresh(cur) && emitted <= n && out == out0 + done
      invariant whole == Prepend(done, IndexStream(cur.buf, cur.pos, bw, n - emitted))
      decreases |cur.buf| - cur.pos
    {
      IndexStep(cur.buf, cur.pos, bw, n - emitted, done, whole);
      ghost var start := cur.pos;
      var read := ReadRunFrom(cur, bw, 32);
      if read.Err? {
        return Fail(read.error), out;
      }
      var run := read.value;
      if run.Packed? {
        PackedChunkSize(cur.buf, start, bw);
      }
      var toEmit := Min(n - emitted, RunLen(run));
      done := done + RunPrefix(run, toEmit, bw);
      out := EmitRun(run, toEmit, bw, out);
      emitted := emitted + toEmit;
    }
    IndexDone(cur.buf, cur.pos, bw);
    return Pass, out;
  }

  lemma IndexStep(buf: seq<Byte>, pos: nat, bw: nat, n: nat, done: seq<nat>, whole: Result<seq<nat>>)
    requires pos <= |buf| && n > 0 && whole == Prepend(done, IndexStream(buf, pos, bw, n))
    ensures var run := ReadRun(buf, pos, bw);
            if run.Err? then whole == Err(run.error)
            else var m := Min(n, RunLen(run.value.0));
                 whole == Prepend(done + RunPrefix(run.value.0, m, bw), IndexStream(buf, run.value.1, bw, n - m))
  {
    hide ReadRun, RunPrefix;
    var run := ReadRun(buf, pos, bw);
    if run.Ok? {
      var m := Min(n, RunLen(run.value.0));
      PrependTwice(done, RunPrefix(run.value.0, m, bw), IndexStream(buf, run.value.1, bw, n - m));
    }
  }

  lemma IndexDone(buf: seq<Byte>, pos: nat, bw: nat)
    requires pos <= |buf|
    ensures IndexStream(buf, pos, bw, 0) == Ok([])
  {
  }

  /** `decode_rle_dictionary_indices`. */
  method DecodeIndices(body: seq<Byte>, n: nat) returns (r: Result<seq<nat>>)
    ensures r == PageIndices(body, n)
  {
    hide PageIndices;
    var status, out := DecodeIndicesInto(body, n, []);
    if status.Fail? {
      return Err(status.error);
    }
    assert [] + PageIndices(body, n).value == PageIndices(body, n).value;
    return Ok(out);
  }

  /** One run looked up, as the fused decoder does it. */
  method EmitLookup<T>(run: Run, m: nat, bw: nat, dict: seq<T>, out0: seq<T>) returns (r: Outcome, out: seq<T>)
    requires 1 <= bw <= 32 && m <= RunLen(run)
    requires run.Packed? ==> |run.chunk| == run.groups * bw
    ensures r == Status(RunLookup(run, RunPrefix(run, m, bw), dict))
    ensures r.Pass? ==> out == out0 + RunLookup(run, RunPrefix(run, m, bw), dict).value
    ensures out0 <= out
  {
    hide Fields, LookupAll;
    out := out0;
    match run
    case Packed(groups, chunk) =>
      RunBytes(m, groups, bw);
      r, out := UnpackLookupInto(chunk, m, bw, dict, out);
    case Repeat(_, index) =>
      if index >= |dict| {
        return Fail(DictIndexOutOfRange(index, |dict|)), out;
      }
      LookupRepeat(dict, index, m);
      var v := dict[index];
      for k := 0 to m
        invariant out == out0 + seq(k, _ => v)
      {
        out := out + [v];
      }
      r := Pass;
  }

  lemma LookupRepeat<T>(dict: seq<T>, index: nat, m: nat)
    requires index < |dict|
    ensures LookupAll(dict, seq(m, _ => index)) == Ok(seq(m, _ => dict[index]))
  {
    hide LookupAll;
    LookupAllMeaning(dict, seq(m, _ => index));
    assert LookupAll(dict, seq(m, _ => index)).value == seq(m, _ => dict[index]);
  }

  /** `decode_rle_dictionary_into`. */
  method DecodeValuesInto<T>(body: seq<Byte>, dict: seq<T>, n: nat, out0: seq<T>) returns (r: Outcome, out: seq<T>)
    ensures r == Status(PageValues(body, dict, n))
    ensures out0 <= out
    ensures r.Pass? ==> out == out0 + PageValues(body, dict, n).value
  {
    hide LookupStream, ReadRun, RunPrefix, RunLookup, LookupAll;
    out := out0;
    if |body| == 0 {
      return Fail(EmptyDictPageBody), out;
    }
    var bw: nat := body[0];
    if bw > 32 {
      return Fail(BitWidthOutOfRange(bw)), out;
    }
    if n == 0 {
      return Pass, out;
    }
    if bw == 0 {
      if |dict| == 0 {
        LookupEmptyDict(dict, n);
        return Fail(DictIndexOutOfRange(0, 0)), out;
      }
      LookupRepeat(dict, 0, n);
      return Pass, out + seq(n, _ => dict[0]);
    }
    var cur := new Cursor(body[1..]);
    var emitted := 0;
    ghost var whole := LookupStream(cur.buf, 0, bw, dict, n);
    ghost var done := [];
    PrependNothing(whole);
    while emitted < n
      invariant cur.Valid() && fresh(cur) && emitted <= n && out == out0 + done
      invariant whole == Prepend(done, LookupStream(cur.buf, cur.pos, bw, dict, n - emitted))
      decreases |cur.buf| - cur.pos
    {
      LookupRunStep(cur.buf, cur.pos, bw, dict, n - emitted, done, whole);
      ghost var start := cur.pos;
      var read := ReadRunFrom(cur, bw, 32);
      if read.Err? {
        return Fail(read.error), out;
      }
      var run := read.value;
      if run.Packed? {
        PackedChunkSize(cur.buf, start, bw);
      }
      var toEmit := Min(n - emitted, RunLen(run));
      ghost var values := RunLookup(run, RunPrefix(run, toEmit, bw), dict);
      r, out := EmitLookup(run, toEmit, bw, dict, out);
      if r.Fail? {
        return;
      }
      done := done + values.value;
      emitted := emitted + toEmit;
    }
    LookupDone(cur.buf, cur.pos, bw, dict);
    return Pass, out;
  }

  lemma LookupEmptyDict<T>(dict: seq<T>, n: nat)
    requires dict == [] && n > 0
    ensures LookupAll(dict, seq(n, _ => 0)) == Err(DictIndexOutOfRange(0, 0))
  {
    assert seq(n, _ => 0)[0] == 0;
  }

  lemma LookupRunStep<T>(buf: seq<Byte>, pos: nat, bw: nat, dict: seq<T>, n: nat, done: seq<T>, whole: Result<seq<T>>)
    requires pos <= |buf| && n > 0 && whole == Prepend(done, LookupStream(buf, pos, bw, dict, n))
    ensures var run := ReadRun(buf, pos, bw);
            if run.Err? then whole == Err(run.error)
            else
              var m := Min(n, RunLen(run.value.0));
              var values := RunLookup(run.value.0, RunPrefix(run.value.0, m, bw), dict);
              if values.Err? then whole == Err(values.error)
              else whole == Prepend(done + values.value, LookupStream(buf, run.value.1, bw, dict, n - m))
  {
    hide ReadRun, RunPrefix, RunLookup;
    var run := ReadRun(buf, pos, bw);
    if run.Ok? {
      var m := Min(n, RunLen(run.value.0));
      var values := RunLookup(run.value.0, RunPrefix(run.value.0, m, bw), dict);
      if values.Ok? {
        PrependTwice(done, values.value, LookupStream(buf, run.value.1, bw, dict, n - m));
      }
    }
  }

  lemma LookupDone<T>(buf: seq<Byte>, pos: nat, bw: nat, dict: seq<T>)
    requires pos <= |buf|
    ensures LookupStream(buf, pos, bw, dict, 0) == Ok([])
  {
  }
}
