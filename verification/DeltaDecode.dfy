/** `decode_delta_i32_from` and `decode_delta_i64_from`. They are the same loop over blocks and
    mini-blocks; what differs is the first value's reader, the accumulator (i64 or i128), the widest
    packed delta (32 or 64 bits) and when a too wide one is refused. */
module DeltaDecode {
  import opened Bits
  import opened Wire
  import opened Bitpack
  import opened DeltaStream

  /** What `m` deltas do to the accumulator, wrapped in its register. */
  ghost predicate Holds(prev: int, acc: int, width: nat) {
    prev == Wrap(acc, AccModulus(width))
  }

  /** The inner loop: wrapping adds, a truncating cast, until enough values are out. */
  method EmitDeltas(deltas: seq<nat>, minDelta: int, width: nat, prev0: int, remaining0: nat, out0: seq<int>, ghost acc0: int)
    returns (prev: int, remaining: nat, out: seq<int>)
    requires (width == 32 || width == 64) && Holds(prev0, acc0, width)
    ensures var incs := Shifted(minDelta, deltas[..Min(remaining0, |deltas|)]);
            && remaining == remaining0 - |incs|
            && Holds(prev, acc0 + Total(incs), width)
            && out == out0 + Running(acc0, incs, width)
  {
    hide Wrap, Running, Shifted;
    prev, remaining, out := prev0, remaining0, out0;
    ghost var wanted := deltas[..Min(remaining0, |deltas|)];
    ghost var incs := Shifted(minDelta, wanted);
    ghost var done := [];
    NoDeltas(acc0, minDelta, width);
    assert [] + incs == incs && wanted[0..] == wanted && out0 + [] == out0;
    var i := 0;
    while i < |deltas| && remaining > 0
      invariant i <= |wanted| && remaining == remaining0 - i
      invariant incs == done + Shifted(minDelta, wanted[i..])
      invariant Holds(prev, acc0 + Total(done), width)
      invariant out == out0 + Running(acc0, done, width)
    {
      assert wanted[i..][1..] == wanted[i + 1..] && wanted[i] == deltas[i];
      EmitStep(done, minDelta, wanted[i..]);
      EmitValue(acc0, done, minDelta + deltas[i], width);
      WrappedStep(acc0 + Total(done), minDelta, deltas[i], width);
      var m := AccModulus(width);
      prev := Wrap(Wrap(prev + minDelta, m) + deltas[i], m);
      out := out + [Wrap(prev, ValueModulus(width))];
      done := done + [minDelta + deltas[i]];
      remaining := remaining - 1;
      i := i + 1;
    }
    assert wanted[i..] == [] && done + [] == done;
  }

  lemma NoDeltas(acc: int, minDelta: int, width: nat)
    ensures Shifted(minDelta, []) == [] && Running(acc, [], width) == [] && Total([]) == 0
  {
  }

  /** One more increment taken from the list of those wanted. */
  lemma EmitStep(done: seq<int>, minDelta: int, rest: seq<nat>)
    requires rest != []
    ensures done + Shifted(minDelta, rest) == done + [minDelta + rest[0]] + Shifted(minDelta, rest[1..])
  {
    hide Shifted;
    ShiftedUnfold(minDelta, rest);
    Associate(done, [minDelta + rest[0]], Shifted(minDelta, rest[1..]));
  }

  lemma Associate(a: seq<int>, b: seq<int>, c: seq<int>)
    ensures a + (b + c) == a + b + c
  {
  }

  /** The total and the running values with one more increment. */
  lemma EmitValue(acc: int, done: seq<int>, d: int, width: nat)
    ensures Total(done + [d]) == Total(done) + d
    ensures Running(acc, done + [d], width)
         == Running(acc, done, width) + [Wrap(acc + Total(done) + d, ValueModulus(width))]
  {
    hide Wrap, Running, Total;
    TotalAppend(done, [d]);
    RunningAppend(acc, done, [d], width);
    OneIncrement(acc + Total(done), d, width);
  }

  lemma ShiftedUnfold(minDelta: int, rest: seq<nat>)
    requires rest != []
    ensures Shifted(minDelta, rest) == [minDelta + rest[0]] + Shifted(minDelta, rest[1..])
  {
  }

  lemma OneIncrement(acc: int, d: int, width: nat)
    ensures Total([d]) == d
    ensures Running(acc, [d], width) == [Wrap(acc + d, ValueModulus(width))]
  {
    hide Wrap;
    assert [d][1..] == [];
  }

  // ----- one block -----

  /** Increments already emitted in front of what the rest of the input gives. */
  function After(done: seq<int>, rest: Result<(seq<int>, nat)>): Result<(seq<int>, nat)> {
    match rest
    case Ok((v, end)) => Ok((done + v, end))
    case Err(e) => Err(e)
  }

  lemma AfterNothing(rest: Result<(seq<int>, nat)>)
    ensures After([], rest) == rest
  {
    if rest.Ok? {
      assert [] + rest.value.0 == rest.value.0;
    }
  }

  lemma AfterTwice(a: seq<int>, b: seq<int>, rest: Result<(seq<int>, nat)>)
    ensures After(a, After(b, rest)) == After(a + b, rest)
  {
    if rest.Ok? {
      assert a + (b + rest.value.0) == a + b + rest.value.0;
    }
  }

  /** The first mini-block of those left, as the decoder meets it. */
  lemma MiniStep(buf: seq<Byte>, pos: nat, widths: seq<Byte>, mini: nat, minDelta: int, width: nat, n: nat,
                 done: seq<int>, whole: Result<(seq<int>, nat)>)
    requires pos <= |buf| && widths != [] && n > 0
    requires whole == After(done, MiniBlocks(buf, pos, widths, mini, minDelta, width, n))
    ensures var chunk := TakeAt(buf, pos, BodyBytes(mini, widths[0]));
            if width == 64 && widths[0] > 64 then whole == Err(Decompress)
            else if chunk.Err? then whole == Err(chunk.error)
            else if width == 32 && widths[0] > 32 then whole == Err(BitWidthOutOfRange(widths[0]))
            else if !WholeBody(mini, widths[0]) then whole == Err(Decompress)
            else
              var here := Shifted(minDelta, Unpacked(chunk.value, Min(n, mini), widths[0]));
              whole == After(done + here, MiniBlocks(buf, pos + BodyBytes(mini, widths[0]), widths[1..], mini, minDelta, width,
                                                     n - |here|))
  {
    hide TakeAt, Unpacked, Shifted, BodyBytes, WholeBody;
    var size := BodyBytes(mini, widths[0]);
    var chunk := TakeAt(buf, pos, size);
    if !(width == 64 && widths[0] > 64) && chunk.Ok? && !(width == 32 && widths[0] > 32) && WholeBody(mini, widths[0]) {
      var here := Shifted(minDelta, Unpacked(chunk.value, Min(n, mini), widths[0]));
      AfterTwice(done, here, MiniBlocks(buf, pos + size, widths[1..], mini, minDelta, width, n - |here|));
    }
  }

  lemma MiniDone(buf: seq<Byte>, pos: nat, widths: seq<Byte>, mini: nat, minDelta: int, width: nat, n: nat)
    requires pos <= |buf| && (widths == [] || n == 0)
    ensures MiniBlocks(buf, pos, widths, mini, minDelta, width, n) == Ok(([], pos))
  {
  }

  /** A mini-block body unpacked in full, of which a prefix is wanted. */
  method UnpackMini(chunk: seq<Byte>, mini: nat, bw: nat, width: nat) returns (r: Outcome, deltas: seq<nat>)
    requires (width == 32 || (width == 64 && bw <= 64)) && |chunk| == BodyBytes(mini, bw)
    ensures r == if width == 32 && bw > 32 then Fail(BitWidthOutOfRange(bw))
                 else if !WholeBody(mini, bw) then Fail(Decompress) else Pass
    ensures r.Pass? ==> deltas == Unpacked(chunk, mini, bw)
  {
    hide Unpacked;
    deltas := [];
    if width == 32 && bw > 32 {
      return Fail(BitWidthOutOfRange(bw)), deltas;
    }
    if |chunk| < CeilDiv8(mini * bw) {
      return Fail(Decompress), deltas;
    }
    r, deltas := UnpackIndicesInto(chunk, mini, bw, if width == 32 || bw <= 32 then 32 else 64, []);
    assert [] + Unpacked(chunk, mini, bw) == Unpacked(chunk, mini, bw);
  }

  lemma UnpackedPrefix(chunk: seq<Byte>, m: nat, n: nat, bw: nat)
    requires m <= n
    ensures Unpacked(chunk, n, bw)[..m] == Unpacked(chunk, m, bw)
  {
    hide Fields;
    FieldsSplit(chunk, 0, m, n - m, bw);
  }

  /** The mini-blocks of one block. */
  method DecodeMiniBlocks(cur: Cursor, widths: seq<Byte>, mini: nat, minDelta: int, width: nat, prev0: int, remaining0: nat,
                          out0: seq<int>, ghost acc0: int)
    returns (r: Outcome, prev: int, remaining: nat, out: seq<int>)
    requires cur.Valid() && (width == 32 || width == 64) && Holds(prev0, acc0, width)
    modifies cur
    ensures cur.Valid()
    ensures r == Status(MiniBlocks(cur.buf, old(cur.pos), widths, mini, minDelta, width, remaining0))
    ensures r.Pass? ==>
              var (incs, end) := MiniBlocks(cur.buf, old(cur.pos), widths, mini, minDelta, width, remaining0).value;
              && cur.pos == end
              && remaining == remaining0 - |incs|
              && Holds(prev, acc0 + Total(incs), width)
              && out == out0 + Running(acc0, incs, width)
  {
    hide MiniBlocks, Shifted, Running, Total, Holds, TakeAt, Unpacked, WholeBody, BodyBytes;
    prev, remaining, out := prev0, remaining0, out0;
    ghost var whole := MiniBlocks(cur.buf, cur.pos, widths, mini, minDelta, width, remaining0);
    ghost var done := [];
    AfterNothing(whole);
    NoDeltas(acc0, minDelta, width);
    assert widths[0..] == widths && out0 + [] == out0;
    var i := 0;
    while i < |widths| && remaining > 0
      invariant i <= |widths| && cur.Valid() && |done| <= remaining0 && remaining == remaining0 - |done|
      invariant whole
             == After(done, MiniBlocks(cur.buf, cur.pos, widths[i..], mini, minDelta, width, remaining))
      invariant Holds(prev, acc0 + Total(done), width) && out == out0 + Running(acc0, done, width)
    {
      var bw: nat := widths[i];
      assert widths[i..][0] == widths[i] && widths[i..][1..] == widths[i + 1..];
      MiniStep(cur.buf, cur.pos, widths[i..], mini, minDelta, width, remaining, done, whole);
      if width == 64 && bw > 64 {
        return Fail(Decompress), prev, remaining, out;
      }
      var chunk := cur.Take(BodyBytes(mini, bw));
      if chunk.Err? {
        return Fail(chunk.error), prev, remaining, out;
      }
      var status, deltas;
      status, deltas := UnpackMini(chunk.value, mini, bw, width);
      if status.Fail? {
        return status, prev, remaining, out;
      }
      ghost var here := Shifted(minDelta, Unpacked(chunk.value, Min(remaining, mini), bw));
      UnpackedPrefix(chunk.value, Min(remaining, mini), mini, bw);
      prev, remaining, out := EmitDeltas(deltas, minDelta, width, prev, remaining, out, acc0 + Total(done));
      TotalAppend(done, here);
      RunningAppend(acc0, done, here, width);
      assert acc0 + Total(done) + Total(here) == acc0 + Total(done + here);
      done := done + here;
      i := i + 1;
    }
    MiniDone(cur.buf, cur.pos, widths[i..], mini, minDelta, width, remaining);
    assert done + [] == done;
    r := Pass;
  }

  // ----- the stream -----

  /** One block: its minimum delta, its width bytes, its bodies. */
  lemma BlockStep(buf: seq<Byte>, pos: nat, mini: nat, minis: nat, width: nat, n: nat, done: seq<int>,
                  whole: Result<(seq<int>, nat)>)
    requires pos <= |buf| && n > 0 && whole == After(done, Increments(buf, pos, mini, minis, width, n))
    ensures var min := ZigzagAt(buf, pos, 64);
            if min.Err? then whole == Err(min.error)
            else if minis > 64 then whole == Err(Decompress)
            else
              var p := min.value.1;
              var widths := WidthsAt(buf, p, minis);
              if widths.Err? then whole == Err(widths.error)
              else
                var block := MiniBlocks(buf, p + minis, widths.value, mini, min.value.0, width, n);
                if block.Err? then whole == Err(block.error)
                else whole == After(done + block.value.0,
                                    Increments(buf, block.value.1, mini, minis, width, n - |block.value.0|))
  {
    hide ZigzagAt, WidthsAt, MiniBlocks;
    var min := ZigzagAt(buf, pos, 64);
    if min.Ok? && minis <= 64 {
      var widths := WidthsAt(buf, min.value.1, minis);
      if widths.Ok? {
        var block := MiniBlocks(buf, min.value.1 + minis, widths.value, mini, min.value.0, width, n);
        if block.Ok? {
          AfterTwice(done, block.value.0, Increments(buf, block.value.1, mini, minis, width, n - |block.value.0|));
        }
      }
    }
  }

  lemma BlocksDone(buf: seq<Byte>, pos: nat, mini: nat, minis: nat, width: nat)
    requires pos <= |buf|
    ensures Increments(buf, pos, mini, minis, width, 0) == Ok(([], pos))
  {
  }

  /** `bit_widths[i] = cur.read_u8()?` for each mini-block. */
  method ReadWidths(cur: Cursor, minis: nat) returns (r: Result<seq<Byte>>)
    requires cur.Valid()
    modifies cur
    ensures cur.Valid() && r == WidthsAt(cur.buf, old(cur.pos), minis)
    ensures r.Ok? ==> cur.pos == old(cur.pos) + minis
  {
    var widths := [];
    ghost var start := cur.pos;
    for i := 0 to minis
      invariant cur.Valid() && cur.pos == start + i && widths == cur.buf[start..start + i]
    {
      var w :- cur.ReadU8();
      widths := widths + [w];
    }
    return Ok(widths);
  }

  /** All blocks after the header. */
  method DecodeBlocks(cur: Cursor, mini: nat, minis: nat, width: nat, first: int, count: nat)
    returns (r: Outcome, out: seq<int>)
    requires cur.Valid() && (width == 32 || width == 64) && Holds(first, first, width)
    modifies cur
    ensures cur.Valid()
    ensures r == Status(Increments(cur.buf, old(cur.pos), mini, minis, width, count))
    ensures r.Pass? ==>
              var (incs, end) := Increments(cur.buf, old(cur.pos), mini, minis, width, count).value;
              cur.pos == end && out == [first] + Running(first, incs, width)
  {
    hide Increments, Running, Total, Holds, MiniBlocks, ZigzagAt, WidthsAt;
    out := [first];
    var prev := first;
    var remaining: nat := count;
    ghost var whole := Increments(cur.buf, cur.pos, mini, minis, width, count);
    ghost var done := [];
    AfterNothing(whole);
    NoDeltas(first, 0, width);
    assert [first] + [] == [first];
    while remaining > 0
      invariant cur.Valid() && |done| <= count && remaining == count - |done|
      invariant whole == After(done, Increments(cur.buf, cur.pos, mini, minis, width, remaining))
      invariant Holds(prev, first + Total(done), width) && out == [first] + Running(first, done, width)
      decreases |cur.buf| - cur.pos
    {
      BlockStep(cur.buf, cur.pos, mini, minis, width, remaining, done, whole);
      var minDelta := cur.ReadZigzagI64();
      if minDelta.Err? {
        return Fail(minDelta.error), out;
      }
      if minis > 64 {
        return Fail(Decompress), out;
      }
      var widths := ReadWidths(cur, minis);
      if widths.Err? {
        return Fail(widths.error), out;
      }
      ghost var block := MiniBlocks(cur.buf, cur.pos, widths.value, mini, minDelta.value, width, remaining);
      r, prev, remaining, out :=
        DecodeMiniBlocks(cur, widths.value, mini, minDelta.value, width, prev, remaining, out, first + Total(done));
      if r.Fail? {
        return;
      }
      TotalAppend(done, block.value.0);
      RunningAppend(first, done, block.value.0, width);
      assert [first] + Running(first, done, width) + Running(first + Total(done), block.value.0, width)
          == [first] + (Running(first, done, width) + Running(first + Total(done), block.value.0, width));
      done := done + block.value.0;
    }
    BlocksDone(cur.buf, cur.pos, mini, minis, width);
    assert done + [] == done;
    return Pass, out;
  }

  /** `decode_delta_i32_from` (`width` 32) and `decode_delta_i64_from` (`width` 64). The cursor ends
      just after the last mini-block body that was needed. */
  method DecodeDeltaFrom(cur: Cursor, width: nat) returns (r: Result<seq<int>>)
    requires cur.Valid() && (width == 32 || width == 64)
    modifies cur
    ensures cur.Valid()
    ensures r == First(DeltaAt(cur.buf, old(cur.pos), width))
    ensures r.Ok? ==> cur.pos == DeltaAt(cur.buf, old(cur.pos), width).value.1
  {
    hide UvarintAt, ZigzagAt, Increments, Running, Wrap;
    ghost var start := cur.pos;
    var blockSize :- cur.ReadUvarint();
    var minis :- cur.ReadUvarint();
    var count :- cur.ReadUvarint();
    ghost var at := cur.pos;
    var first;
    if width == 32 {
      first :- cur.ReadZigzagI32();
    } else {
      first :- cur.ReadZigzagI64();
    }
    if count == 0 {
      return Ok([]);
    }
    if minis == 0 {
      return Err(Decompress);
    }
    if blockSize % minis != 0 {
      return Err(Decompress);
    }
    ZigzagRange(cur.buf, at, width);
    FirstHolds(first, width);
    assert HeaderAt(cur.buf, start, width) == Ok((Header(blockSize / minis, minis, count, first), cur.pos));
    var status, out := DecodeBlocks(cur, blockSize / minis, minis, width, first, count - 1);
    if status.Fail? {
      return Err(status.error);
    }
    return Ok(out);
  }

  lemma FirstHolds(first: int, width: nat)
    requires (width == 32 || width == 64) && InRange(first, width)
    ensures Holds(first, first, width)
  {
  }
}
