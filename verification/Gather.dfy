/** The bitmap-driven gather: only rows whose bit is set reach the output. */
module Gather {
  import opened Bits
  import opened Wire
  import opened Bitpack
  import opened DictStream
  import opened DictDecode

  // ----- counting set bits -----

  /** How many of the `n` bits from bit `at` on are set. */
  function CountBits(bitmap: seq<Byte>, at: nat, n: nat): (c: nat)
    ensures c <= n
    decreases n, bitmap
  {
    if n == 0 then 0 else Bit(bitmap, at) + CountBits(bitmap, at + 1, n - 1)
  }

  /** `count_ones`. */
  function CountOnes(x: nat): nat {
    if x == 0 then 0 else x % 2 + CountOnes(x / 2)
  }

  lemma {:induction false} CountBitsSplit(bitmap: seq<Byte>, at: nat, a: nat, b: nat)
    ensures CountBits(bitmap, at, a + b) == CountBits(bitmap, at, a) + CountBits(bitmap, at + a, b)
    decreases a
  {
    hide Bit;
    if a > 0 {
      CountBitsSplit(bitmap, at + 1, a - 1, b);
      assert a - 1 + b == a + b - 1 && at + 1 + (a - 1) == at + a;
    }
  }

  /** The top `w` bits of a byte, counted one by one and counted at once. */
  lemma {:induction false} CountByteTail(bitmap: seq<Byte>, j: nat, i: nat, w: nat)
    requires j < |bitmap| && i + w == 8
    ensures CountBits(bitmap, 8 * j + i, w) == CountOnes(Shr(bitmap[j], i))
    decreases w
  {
    if w > 0 {
      CountByteTail(bitmap, j, i + 1, w - 1);
      assert (8 * j + i) / 8 == j && (8 * j + i) % 8 == i;
      ShrSucc(bitmap[j], i);
    } else {
      assert Shr(bitmap[j], 8) == 0;
    }
  }

  lemma CountNone(bitmap: seq<Byte>, at: nat)
    ensures CountBits(bitmap, at, 0) == 0
  {
  }

  lemma CountStep(bitmap: seq<Byte>, at: nat, n: nat)
    requires n > 0 && at / 8 < |bitmap|
    ensures CountBits(bitmap, at, n) == Shr(bitmap[at / 8], at % 8) % 2 + CountBits(bitmap, at + 1, n - 1)
  {
  }

  lemma CountByte(bitmap: seq<Byte>, at: nat, n: nat)
    requires n >= 8 && at % 8 == 0 && at / 8 < |bitmap|
    ensures CountBits(bitmap, at, n) == CountOnes(bitmap[at / 8]) + CountBits(bitmap, at + 8, n - 8)
  {
    hide CountBits, CountOnes;
    CountByteTail(bitmap, at / 8, 0, 8);
    CountBitsSplit(bitmap, at, 8, n - 8);
  }

  /** `popcount_range`: bit by bit to a byte boundary, whole bytes, then the tail. */
  method PopcountRange(bitmap: seq<Byte>, start: nat, end: nat) returns (total: nat)
    requires start < end ==> end <= 8 * |bitmap|
    ensures total == if start < end then CountBits(bitmap, start, end - start) else 0
  {
    hide CountBits, CountOnes, Shr;
    if start >= end {
      return 0;
    }
    var bit := start;
    total := 0;
    while bit < end && bit % 8 != 0
      invariant start <= bit <= end
      invariant total + CountBits(bitmap, bit, end - bit) == CountBits(bitmap, start, end - start)
    {
      CountStep(bitmap, bit, end - bit);
      if Shr(bitmap[bit / 8], bit % 8) % 2 == 1 {
        total := total + 1;
      }
      bit := bit + 1;
    }
    while bit + 8 <= end
      invariant start <= bit <= end && (bit % 8 == 0 || bit == end)
      invariant total + CountBits(bitmap, bit, end - bit) == CountBits(bitmap, start, end - start)
    {
      CountByte(bitmap, bit, end - bit);
      total := total + CountOnes(bitmap[bit / 8]);
      bit := bit + 8;
    }
    while bit < end
      invariant start <= bit <= end
      invariant total + CountBits(bitmap, bit, end - bit) == CountBits(bitmap, start, end - start)
    {
      CountStep(bitmap, bit, end - bit);
      if Shr(bitmap[bit / 8], bit % 8) % 2 == 1 {
        total := total + 1;
      }
      bit := bit + 1;
    }
    CountNone(bitmap, end);
  }

  // ----- selecting -----

  function Copies<T>(v: T, n: nat): (r: seq<T>)
    ensures |r| == n && forall k :: 0 <= k < n ==> r[k] == v
  {
    seq(n, _ => v)
  }

  /** Selecting from a repeated value gives one copy per set bit. */
  lemma {:induction false} SelectRepeat<T>(bitmap: seq<Byte>, at: nat, n: nat, v: T)
    ensures Select(bitmap, at, Copies(v, n)) == Copies(v, CountBits(bitmap, at, n))
    decreases n
  {
    hide Bit;
    if n > 0 {
      SelectRepeat(bitmap, at + 1, n - 1, v);
      assert Copies(v, n)[1..] == Copies(v, n - 1);
    }
  }

  /** Up to eight rows that start on a byte boundary see only that byte. */
  lemma {:induction false} SelectByte<T>(bitmap: seq<Byte>, j: nat, i: nat, s: seq<T>)
    requires j < |bitmap| && i + |s| <= 8
    ensures Select(bitmap, 8 * j + i, s) == Select([bitmap[j]], i, s)
    decreases |s|
  {
    hide Select, Bit;
    if s == [] {
      SelectNothing(bitmap, 8 * j + i, s);
      SelectNothing([bitmap[j]], i, s);
    } else {
      SelectByte(bitmap, j, i + 1, s[1..]);
      SelectHead(bitmap, 8 * j + i, s);
      SelectHead([bitmap[j]], i, s);
      BitOfByte(bitmap, j, i);
      assert 8 * j + (i + 1) == 8 * j + i + 1;
    }
  }

  lemma BitOfByte(bitmap: seq<Byte>, j: nat, i: nat)
    requires j < |bitmap| && i < 8
    ensures Bit(bitmap, 8 * j + i) == Bit([bitmap[j]], i)
  {
    hide Shr;
    assert (8 * j + i) / 8 == j && (8 * j + i) % 8 == i;
  }

  /** A zero mask byte selects nothing, so its block needs no unpacking. */
  lemma {:induction false} SelectZeroByte<T>(i: nat, s: seq<T>)
    requires i + |s| <= 8
    ensures Select([0], i, s) == []
    decreases |s|
  {
    if s != [] {
      SelectZeroByte(i + 1, s[1..]);
      ShrOfZero(i);
    }
  }

  /** The selected rows of `idx`, looked up. */
  function GatherRows<T>(dict: seq<T>, bitmap: seq<Byte>, at: nat, idx: seq<nat>): Result<seq<T>> {
    LookupAll(dict, Select(bitmap, at, idx))
  }

  lemma GatherNothing<T>(dict: seq<T>, bitmap: seq<Byte>, at: nat)
    ensures GatherRows(dict, bitmap, at, []) == Ok([])
  {
  }

  /** Rows split in two: the first part decides, then the second continues. */
  lemma GatherSplit<T>(dict: seq<T>, bitmap: seq<Byte>, at: nat, a: seq<nat>, b: seq<nat>,
                       done: seq<T>, whole: Result<seq<T>>)
    requires whole == Prepend(done, GatherRows(dict, bitmap, at, a + b))
    ensures var first := GatherRows(dict, bitmap, at, a);
            if first.Err? then whole == first
            else whole == Prepend(done + first.value, GatherRows(dict, bitmap, at + |a|, b))
  {
    hide Select, LookupAll;
    SelectAppend(bitmap, at, a, b);
    LookupAppend(dict, Select(bitmap, at, a), Select(bitmap, at + |a|, b));
    var first := GatherRows(dict, bitmap, at, a);
    if first.Ok? {
      PrependTwice(done, first.value, GatherRows(dict, bitmap, at + |a|, b));
    }
  }

  lemma GatherOne<T>(dict: seq<T>, bitmap: seq<Byte>, at: nat, idx: nat)
    requires at / 8 < |bitmap|
    ensures GatherRows(dict, bitmap, at, [idx])
         == if Shr(bitmap[at / 8], at % 8) % 2 == 0 then Ok([])
            else if idx >= |dict| then Err(DictIndexOutOfRange(idx, |dict|))
            else Ok([dict[idx]])
  {
    hide Shr;
    var rest: seq<nat> := [idx][1..];
    assert rest == [] && Select(bitmap, at + 1, rest) == [];
    if Bit(bitmap, at) == 1 {
      assert Select(bitmap, at, [idx]) == [idx] && [idx][1..] == [];
      LookupNothing(dict);
      if idx < |dict| {
        assert [dict[idx]] + [] == [dict[idx]];
      }
    } else {
      assert Select(bitmap, at, [idx]) == [] + Select(bitmap, at + 1, rest) == [];
    }
  }

  // ----- which bits of the bitmap are looked at -----

  /** How many rows are looked at: all of them, or those up to the first one that is selected and whose
      index is outside the dictionary. */
  function RowsLooked(limit: nat, bitmap: seq<Byte>, at: nat, idx: seq<nat>): (r: nat)
    ensures r <= |idx| && (idx != [] ==> r > 0)
    decreases |idx|
  {
    if idx == [] then 0
    else if Bit(bitmap, at) == 1 && idx[0] >= limit then 1
    else 1 + RowsLooked(limit, bitmap, at + 1, idx[1..])
  }

  /** The bitmap has a bit for each of them. */
  predicate Covered(bitmap: seq<Byte>, at: nat, looked: nat) {
    looked > 0 ==> at + looked <= 8 * |bitmap|
  }

  /** The rows of a second part are looked at only when the first part is gathered. */
  lemma {:induction false} LookedSplit<T>(dict: seq<T>, bitmap: seq<Byte>, at: nat, a: seq<nat>, b: seq<nat>)
    ensures GatherRows(dict, bitmap, at, a).Ok? ==>
              && RowsLooked(|dict|, bitmap, at, a) == |a|
              && RowsLooked(|dict|, bitmap, at, a + b) == |a| + RowsLooked(|dict|, bitmap, at + |a|, b)
    ensures GatherRows(dict, bitmap, at, a).Err? ==>
              RowsLooked(|dict|, bitmap, at, a + b) == RowsLooked(|dict|, bitmap, at, a)
    decreases |a|
  {
    hide GatherRows, Bit;
    if a == [] {
      assert a + b == b;
      GatherNothing(dict, bitmap, at);
    } else {
      assert (a + b)[1..] == a[1..] + b;
      LookedSplit(dict, bitmap, at + 1, a[1..], b);
      GatherHead(dict, bitmap, at, a);
      assert at + 1 + |a[1..]| == at + |a|;
    }
  }

  lemma GatherHead<T>(dict: seq<T>, bitmap: seq<Byte>, at: nat, idx: seq<nat>)
    requires idx != []
    ensures GatherRows(dict, bitmap, at, idx).Ok?
       <==> !(Bit(bitmap, at) == 1 && idx[0] >= |dict|) && GatherRows(dict, bitmap, at + 1, idx[1..]).Ok?
  {
    hide Bit, Select;
    SelectHead(bitmap, at, idx);
    var rest := Select(bitmap, at + 1, idx[1..]);
    assert [] + rest == rest;
    assert ([idx[0]] + rest)[1..] == rest;
  }

  /** Indices inside the dictionary are all looked at. */
  lemma {:induction false} LookedAll(limit: nat, bitmap: seq<Byte>, at: nat, idx: seq<nat>)
    requires forall k :: 0 <= k < |idx| ==> idx[k] < limit
    ensures RowsLooked(limit, bitmap, at, idx) == |idx|
    decreases |idx|
  {
    hide Bit;
    if idx != [] {
      LookedAll(limit, bitmap, at + 1, idx[1..]);
    }
  }

  // ----- the per-row loop -----

  /** Rows taken one at a time against their bit in the bitmap. */
  method PushSelected<T>(dict: seq<T>, bitmap: seq<Byte>, at: nat, idx: seq<nat>, out0: seq<T>)
    returns (r: Outcome, out: seq<T>)
    requires Covered(bitmap, at, RowsLooked(|dict|, bitmap, at, idx))
    ensures r == Status(GatherRows(dict, bitmap, at, idx))
    ensures r.Pass? ==> out == out0 + GatherRows(dict, bitmap, at, idx).value
    ensures out0 <= out
  {
    hide GatherRows, Shr, RowsLooked;
    ghost var looked := RowsLooked(|dict|, bitmap, at, idx);
    ghost var whole := GatherRows(dict, bitmap, at, idx);
    ghost var done := [];
    PrependNothing(whole);
    assert idx[0..] == idx;
    out := out0;
    for i := 0 to |idx|
      invariant out == out0 + done && i + RowsLooked(|dict|, bitmap, at + i, idx[i..]) == looked
      invariant whole == Prepend(done, GatherRows(dict, bitmap, at + i, idx[i..]))
    {
      var pos := at + i;
      assert idx[i..] == [idx[i]] + idx[i + 1..];
      GatherSplit(dict, bitmap, pos, [idx[i]], idx[i + 1..], done, whole);
      LookedSplit(dict, bitmap, pos, [idx[i]], idx[i + 1..]);
      GatherOne(dict, bitmap, pos, idx[i]);
      assert done + [] == done;
      if Shr(bitmap[pos / 8], pos % 8) % 2 == 1 {
        if idx[i] >= |dict| {
          return Fail(DictIndexOutOfRange(idx[i], |dict|)), out;
        }
        out := out + [dict[idx[i]]];
        done := done + [dict[idx[i]]];
      }
    }
    assert idx[|idx|..] == [];
    GatherNothing(dict, bitmap, at + |idx|);
    return Pass, out;
  }

  // ----- one bit-packed run -----

  lemma SliceOfRun(chunk: seq<Byte>, lo: nat, n: nat, m: nat, bw: nat)
    requires 8 * lo + Span(n + m, bw) <= 8 * |chunk|
    ensures lo + CeilDiv8(n * bw) <= |chunk|
    ensures Unpacked(chunk[lo..lo + CeilDiv8(n * bw)], n, bw) == Fields(chunk, 8 * lo, n, bw)
  {
    hide Fields, Span;
    SpanSplit(n, m, bw);
    SpanIsProduct(n, bw);
    FieldsSlice(chunk, lo, lo + CeilDiv8(n * bw), 0, n, bw);
  }

  /** The misaligned path: the head rows up to the byte boundary, then the whole run unpacked again
      and the rest of it taken row by row. */
  method GatherMisaligned<T>(chunk: seq<Byte>, n: nat, bw: nat, dict: seq<T>, bitmap: seq<Byte>, at: nat, out0: seq<T>)
    returns (r: Outcome, out: seq<T>)
    requires 1 <= bw <= 32 && n * bw <= 8 * |chunk| && at % 8 != 0
    requires Covered(bitmap, at, RowsLooked(|dict|, bitmap, at, Unpacked(chunk, n, bw)))
    ensures r == Status(GatherRows(dict, bitmap, at, Unpacked(chunk, n, bw)))
    ensures r.Pass? ==> out == out0 + GatherRows(dict, bitmap, at, Unpacked(chunk, n, bw)).value
    ensures out0 <= out
  {
    hide GatherRows, Fields, Span, RowsLooked;
    var headRows := Min(8 - at % 8, n);
    var head := UnpackRows(chunk, headRows, n - headRows, bw);
    HeadAndRest(chunk, headRows, n - headRows, bw, dict, bitmap, at);
    r, out := PushSelected(dict, bitmap, at, head, out0);
    if r.Fail? {
      return;
    }
    var all := UnpackRows(chunk, n, 0, bw);
    r, out := PushSelected(dict, bitmap, at + headRows, all[headRows..], out);
  }

  /** The first `n` of `n + m` rows of a run, unpacked. */
  method UnpackRows(chunk: seq<Byte>, n: nat, m: nat, bw: nat) returns (idx: seq<nat>)
    requires 1 <= bw <= 32 && (n + m) * bw <= 8 * |chunk|
    ensures idx == Unpacked(chunk, n, bw)
  {
    hide Fields, Span;
    FitsSpan(n + m, bw, chunk);
    SliceOfRun(chunk, 0, n, m, bw);
    SpanIsProduct(n, bw);
    assert chunk[0..CeilDiv8(n * bw)] == chunk[..CeilDiv8(n * bw)];
    var status;
    status, idx := UnpackIndicesInto(chunk[..CeilDiv8(n * bw)], n, bw, 32, []);
    assert [] + Fields(chunk, 0, n, bw) == Fields(chunk, 0, n, bw);
  }

  /** Head rows first, then the others of all rows. */
  lemma HeadAndRest<T>(chunk: seq<Byte>, n: nat, m: nat, bw: nat, dict: seq<T>, bitmap: seq<Byte>, at: nat)
    ensures var head, all := Unpacked(chunk, n, bw), Unpacked(chunk, n + m, bw);
            var whole, first := GatherRows(dict, bitmap, at, all), GatherRows(dict, bitmap, at, head);
            && |all[n..]| == m
            && RowsLooked(|dict|, bitmap, at, head) <= RowsLooked(|dict|, bitmap, at, all)
            && (first.Ok? ==> RowsLooked(|dict|, bitmap, at, all) == n + RowsLooked(|dict|, bitmap, at + n, all[n..]))
            && if first.Err? then whole == first else whole == Prepend(first.value, GatherRows(dict, bitmap, at + n, all[n..]))
  {
    hide GatherRows, Fields, Span, RowsLooked;
    var head, all := Unpacked(chunk, n, bw), Unpacked(chunk, n + m, bw);
    FieldsSplit(chunk, 0, n, m, bw);
    assert all == head + all[n..];
    LookedSplit(dict, bitmap, at, head, all[n..]);
    var whole := GatherRows(dict, bitmap, at, all);
    PrependNothing(whole);
    GatherSplit(dict, bitmap, at, head, all[n..], [], whole);
    if GatherRows(dict, bitmap, at, head).Ok? {
      assert [] + GatherRows(dict, bitmap, at, head).value == GatherRows(dict, bitmap, at, head).value;
    }
  }

  /** One block of eight rows against its mask byte; a zero byte skips the unpacking. */
  method GatherBlock<T>(block: seq<Byte>, maskByte: Byte, bw: nat, dict: seq<T>, out0: seq<T>)
    returns (r: Outcome, out: seq<T>)
    requires 1 <= bw <= 32 && |block| == bw
    ensures r == Status(GatherRows(dict, [maskByte], 0, Unpacked(block, 8, bw)))
    ensures r.Pass? ==> out == out0 + GatherRows(dict, [maskByte], 0, Unpacked(block, 8, bw)).value
    ensures out0 <= out
  {
    hide LookupAll, Fields, Select;
    if maskByte != 0 {
      var scratch := StreamUnpack(block, 8, bw, 64, []);
      assert [] + Unpacked(block, 8, bw) == Unpacked(block, 8, bw);
      r, out := PushSelected(dict, [maskByte], 0, scratch, out0);
    } else {
      SelectZeroByte(0, Unpacked(block, 8, bw));
      LookupNothing(dict);
      r, out := Pass, out0;
    }
  }

  /** One block peeled off the rest of an aligned run. */
  lemma BlockStep<T>(chunk: seq<Byte>, lo: nat, rest: nat, bw: nat, dict: seq<T>, bitmap: seq<Byte>, at: nat,
                     done: seq<T>, whole: Result<seq<T>>)
    requires 8 * lo + Span(8 + rest, bw) <= 8 * |chunk| && at % 8 == 0
    requires Covered(bitmap, at, RowsLooked(|dict|, bitmap, at, Fields(chunk, 8 * lo, 8 + rest, bw)))
    requires whole == Prepend(done, GatherRows(dict, bitmap, at, Fields(chunk, 8 * lo, 8 + rest, bw)))
    ensures lo + bw <= |chunk| && 8 * (lo + bw) + Span(rest, bw) <= 8 * |chunk|
    ensures at / 8 < |bitmap| && (at + 8) % 8 == 0
    ensures var part := GatherRows(dict, [bitmap[at / 8]], 0, Unpacked(chunk[lo..lo + bw], 8, bw));
            if part.Err? then whole == part
            else whole == Prepend(done + part.value,
                                  GatherRows(dict, bitmap, at + 8, Fields(chunk, 8 * (lo + bw), rest, bw)))
                 && RowsLooked(|dict|, bitmap, at, Fields(chunk, 8 * lo, 8 + rest, bw))
                 == 8 + RowsLooked(|dict|, bitmap, at + 8, Fields(chunk, 8 * (lo + bw), rest, bw))
  {
    hide Fields, Span, Select, LookupAll, RowsLooked;
    SpanSplit(8, rest, bw);
    SpanIsProduct(8, bw);
    FieldsSplit(chunk, 8 * lo, 8, rest, bw);
    FieldsSlice(chunk, lo, lo + bw, 0, 8, bw);
    var idx := Fields(chunk, 8 * lo, 8, bw);
    GatherSplit(dict, bitmap, at, idx, Fields(chunk, 8 * (lo + bw), rest, bw), done, whole);
    LookedSplit(dict, bitmap, at, idx, Fields(chunk, 8 * (lo + bw), rest, bw));
    SelectByte(bitmap, at / 8, 0, idx);
  }

  lemma FitsSpan(n: nat, bw: nat, chunk: seq<Byte>)
    requires n * bw <= 8 * |chunk|
    ensures Span(n, bw) <= 8 * |chunk|
  {
    SpanIsProduct(n, bw);
  }

  /** The aligned path: eight rows at a time, then the tail. */
  method GatherAligned<T>(chunk: seq<Byte>, n: nat, bw: nat, dict: seq<T>, bitmap: seq<Byte>, at: nat, out0: seq<T>)
    returns (r: Outcome, out: seq<T>)
    requires 1 <= bw <= 32 && n * bw <= 8 * |chunk| && at % 8 == 0
    requires Covered(bitmap, at, RowsLooked(|dict|, bitmap, at, Unpacked(chunk, n, bw)))
    ensures r == Status(GatherRows(dict, bitmap, at, Unpacked(chunk, n, bw)))
    ensures r.Pass? ==> out == out0 + GatherRows(dict, bitmap, at, Unpacked(chunk, n, bw)).value
    ensures out0 <= out
  {
    hide GatherRows, Fields, Span, RowsLooked;
    FitsSpan(n, bw, chunk);
    var byteCursor: nat, blockRow: nat := 0, 0;
    out := out0;
    ghost var looked := RowsLooked(|dict|, bitmap, at, Unpacked(chunk, n, bw));
    ghost var whole := GatherRows(dict, bitmap, at, Unpacked(chunk, n, bw));
    ghost var done := [];
    PrependNothing(whole);
    while blockRow + 8 <= n
      invariant blockRow <= n && (at + blockRow) % 8 == 0 && out == out0 + done
      invariant 8 * byteCursor + Span(n - blockRow, bw) <= 8 * |chunk|
      invariant blockRow + RowsLooked(|dict|, bitmap, at + blockRow, Fields(chunk, 8 * byteCursor, n - blockRow, bw)) == looked
      invariant whole
             == Prepend(done, GatherRows(dict, bitmap, at + blockRow, Fields(chunk, 8 * byteCursor, n - blockRow, bw)))
    {
      BlockStep(chunk, byteCursor, n - blockRow - 8, bw, dict, bitmap, at + blockRow, done, whole);
      var maskByte := bitmap[(at + blockRow) / 8];
      var block := chunk[byteCursor..byteCursor + bw];
      ghost var part := GatherRows(dict, [maskByte], 0, Unpacked(block, 8, bw));
      r, out := GatherBlock(block, maskByte, bw, dict, out);
      if r.Fail? {
        return;
      }
      done := done + part.value;
      byteCursor := byteCursor + bw;
      blockRow := blockRow + 8;
    }
    r := Pass;
    if blockRow < n {
      r, out := GatherTail(chunk, byteCursor, n - blockRow, bw, dict, bitmap, at + blockRow, out);
    } else {
      FieldsUnfold(chunk, 8 * byteCursor, 0, bw);
      GatherNothing(dict, bitmap, at + blockRow);
    }
  }

  /** Fewer than eight rows at the end of an aligned run. */
  method GatherTail<T>(chunk: seq<Byte>, lo: nat, tail: nat, bw: nat, dict: seq<T>, bitmap: seq<Byte>, at: nat, out0: seq<T>)
    returns (r: Outcome, out: seq<T>)
    requires 1 <= bw <= 32 && 8 * lo + Span(tail, bw) <= 8 * |chunk|
    requires Covered(bitmap, at, RowsLooked(|dict|, bitmap, at, Fields(chunk, 8 * lo, tail, bw)))
    ensures r == Status(GatherRows(dict, bitmap, at, Fields(chunk, 8 * lo, tail, bw)))
    ensures r.Pass? ==> out == out0 + GatherRows(dict, bitmap, at, Fields(chunk, 8 * lo, tail, bw)).value
    ensures out0 <= out
  {
    hide GatherRows, Fields, Span, RowsLooked;
    var status, idx;
    SpanIsProduct(tail, bw);
    SliceOfRun(chunk, lo, tail, 0, bw);
    status, idx := UnpackIndicesInto(chunk[lo..lo + CeilDiv8(tail * bw)], tail, bw, 32, []);
    assert [] + Fields(chunk, 8 * lo, tail, bw) == Fields(chunk, 8 * lo, tail, bw);
    r, out := PushSelected(dict, bitmap, at, idx, out0);
  }

  // ----- one run, and the page -----

  method GatherRun<T>(run: Run, m: nat, bw: nat, dict: seq<T>, bitmap: seq<Byte>, at: nat, out0: seq<T>)
    returns (r: Outcome, out: seq<T>)
    requires 1 <= bw <= 32 && m <= RunLen(run)
    requires (run.Repeat? ==> run.index < |dict|) ==>
               Covered(bitmap, at, RowsLooked(|dict|, bitmap, at, RunPrefix(run, m, bw)))
    requires run.Packed? ==> |run.chunk| == run.groups * bw
    ensures r == Status(RunLookup(run, Select(bitmap, at, RunPrefix(run, m, bw)), dict))
    ensures r.Pass? ==> out == out0 + RunLookup(run, Select(bitmap, at, RunPrefix(run, m, bw)), dict).value
    ensures out0 <= out
  {
    hide Fields, LookupAll, Select, RowsLooked;
    match run
    case Packed(groups, chunk) =>
      RunBytes(m, groups, bw);
      if at % 8 != 0 {
        r, out := GatherMisaligned(chunk, m, bw, dict, bitmap, at, out0);
      } else {
        r, out := GatherAligned(chunk, m, bw, dict, bitmap, at, out0);
      }
    case Repeat(_, index) =>
      if index >= |dict| {
        return Fail(DictIndexOutOfRange(index, |dict|)), out0;
      }
      CountNone(bitmap, at);
      LookedAll(|dict|, bitmap, at, RunPrefix(run, m, bw));
      var matched := PopcountRange(bitmap, at, at + m);
      SelectRepeat(bitmap, at, m, index);
      assert RunPrefix(run, m, bw) == Copies(index, m) && Copies(index, matched) == seq(matched, _ => index);
      LookupRepeat(dict, index, matched);
      var v := dict[index];
      out := out0;
      for k := 0 to matched
        invariant out == out0 + seq(k, _ => v)
      {
        out := out + [v];
      }
      r := Pass;
  }

  /** The rows looked at before the decoder ends: of each run it gets to, until a run cannot be read, a
      repeated index is outside the dictionary, or a selected one is. */
  function RowsWalked<T>(buf: seq<Byte>, pos: nat, bw: nat, dict: seq<T>, bitmap: seq<Byte>, at: nat, n: nat): (r: nat)
    requires pos <= |buf|
    ensures r <= n
    decreases |buf| - pos
  {
    var read := ReadRun(buf, pos, bw);
    if n == 0 || read.Err? || (read.value.0.Repeat? && read.value.0.index >= |dict|) then 0
    else
      var m := Min(n, RunLen(read.value.0));
      var idx := RunPrefix(read.value.0, m, bw);
      if GatherRows(dict, bitmap, at, idx).Err? then RowsLooked(|dict|, bitmap, at, idx)
      else m + RowsWalked(buf, read.value.1, bw, dict, bitmap, at + m, n - m)
  }

  function PageRowsWalked<T>(body: seq<Byte>, dict: seq<T>, bitmap: seq<Byte>, offset: nat, n: nat): (r: nat)
    ensures r <= n
  {
    if body == [] || body[0] > 32 || n == 0 then 0
    else if body[0] == 0 then if dict == [] then 0 else n
    else RowsWalked(body[1..], 0, body[0], dict, bitmap, offset, n)
  }

  /** One run of the walk: its own rows are covered, and it ends the walk or leaves the rest of it. */
  lemma WalkStep<T>(buf: seq<Byte>, pos: nat, bw: nat, dict: seq<T>, bitmap: seq<Byte>, offset: nat, row: nat, n: nat)
    requires pos <= |buf| && row < n && ReadRun(buf, pos, bw).Ok?
    requires Covered(bitmap, offset, row + RowsWalked(buf, pos, bw, dict, bitmap, offset + row, n - row))
    ensures var (run, next) := ReadRun(buf, pos, bw).value;
            var m := Min(n - row, RunLen(run));
            var idx := RunPrefix(run, m, bw);
            && ((run.Repeat? ==> run.index < |dict|) ==> Covered(bitmap, offset + row, RowsLooked(|dict|, bitmap, offset + row, idx)))
            && (RunLookup(run, Select(bitmap, offset + row, idx), dict).Ok? ==>
                  RowsWalked(buf, pos, bw, dict, bitmap, offset + row, n - row)
                  == m + RowsWalked(buf, next, bw, dict, bitmap, offset + (row + m), n - (row + m)))
  {
    hide ReadRun, RunPrefix, Select, LookupAll, RowsLooked;
    var (run, next) := ReadRun(buf, pos, bw).value;
    var m := Min(n - row, RunLen(run));
    LookedSplit(dict, bitmap, offset + row, RunPrefix(run, m, bw), []);
    assert offset + row + m == offset + (row + m) && n - row - m == n - (row + m);
  }

  /** `gather_dict_at_bitmap_into`. */
  method GatherInto<T>(body: seq<Byte>, n: nat, bitmap: seq<Byte>, offset: nat, dict: seq<T>, out0: seq<T>)
    returns (r: Outcome, out: seq<T>)
    requires Covered(bitmap, offset, PageRowsWalked(body, dict, bitmap, offset, n))
    ensures r == Status(PageGather(body, dict, bitmap, offset, n))
    ensures r.Pass? ==> out == out0 + PageGather(body, dict, bitmap, offset, n).value
    ensures out0 <= out
  {
    hide GatherStream, ReadRun, RunPrefix, RunLookup, Select, Shr, RowsWalked, RowsLooked;
    out := out0;
    if |body| == 0 {
      return Fail(EmptyDictPageBody), out;
    }
    var bw: nat := body[0];
    if bw > 32 {
      return Fail(BitWidthOutOfRange(bw)), out;
    }
    if n == 0 {
      return Pass, out;
    }
    if bw == 0 {
      if |dict| == 0 {
        return Fail(DictIndexOutOfRange(0, 0)), out;
      }
      out := GatherConstant(dict[0], n, bitmap, offset, out);
      return Pass, out;
    }
    var cur := new Cursor(body[1..]);
    var row: nat := 0;
    ghost var whole := GatherStream(cur.buf, 0, bw, dict, bitmap, offset, n);
    ghost var walked := RowsWalked(cur.buf, 0, bw, dict, bitmap, offset, n);
    ghost var done := [];
    PrependNothing(whole);
    while row < n
      invariant cur.Valid() && fresh(cur) && row <= n && out == out0 + done
      invariant row + RowsWalked(cur.buf, cur.pos, bw, dict, bitmap, offset + row, n - row) == walked
      invariant whole == Prepend(done, GatherStream(cur.buf, cur.pos, bw, dict, bitmap, offset + row, n - row))
      decreases |cur.buf| - cur.pos
    {
      GatherStep(cur.buf, cur.pos, bw, dict, bitmap, offset + row, n - row, done, whole);
      ghost var start := cur.pos;
      var read := ReadRunFrom(cur, bw, 32);
      if read.Err? {
        return Fail(read.error), out;
      }
      var run := read.value;
      WalkStep(cur.buf, start, bw, dict, bitmap, offset, row, n);
      if run.Packed? {
        PackedChunkSize(cur.buf, start, bw);
      }
      var toConsume := Min(n - row, RunLen(run));
      ghost var values := RunLookup(run, Select(bitmap, offset + row, RunPrefix(run, toConsume, bw)), dict);
      r, out := GatherRun(run, toConsume, bw, dict, bitmap, offset + row, out);
      if r.Fail? {
        return;
      }
      done := done + values.value;
      row := row + toConsume;
    }
    GatherDone(cur.buf, cur.pos, bw, dict, bitmap, offset + n);
    return Pass, out;
  }

  /** Width 0: every row holds the first entry. */
  method GatherConstant<T>(v: T, n: nat, bitmap: seq<Byte>, offset: nat, out0: seq<T>) returns (out: seq<T>)
    requires offset + n <= 8 * |bitmap|
    ensures out == out0 + Select(bitmap, offset, seq(n, _ => v))
  {
    hide CountBits, Shr, Select;
    out := out0;
    SelectRepeat(bitmap, offset, n, v);
    assert seq(n, _ => v) == Copies(v, n);
    ghost var pushed := 0;
    for row := 0 to n
      invariant out == out0 + seq(pushed, _ => v)
      invariant pushed + CountBits(bitmap, offset + row, n - row) == CountBits(bitmap, offset, n)
    {
      var pos := offset + row;
      CountStep(bitmap, pos, n - row);
      if Shr(bitmap[pos / 8], pos % 8) % 2 == 1 {
        out := out + [v];
        pushed := pushed + 1;
      }
    }
    CountNone(bitmap, offset + n);
  }

  lemma GatherStep<T>(buf: seq<Byte>, pos: nat, bw: nat, dict: seq<T>, bitmap: seq<Byte>, at: nat, n: nat,
                      done: seq<T>, whole: Result<seq<T>>)
    requires pos <= |buf| && n > 0 && whole == Prepend(done, GatherStream(buf, pos, bw, dict, bitmap, at, n))
    ensures var run := ReadRun(buf, pos, bw);
            if run.Err? then whole == Err(run.error)
            else
              var m := Min(n, RunLen(run.value.0));
              var values := RunLookup(run.value.0, Select(bitmap, at, RunPrefix(run.value.0, m, bw)), dict);
              if values.Err? then whole == Err(values.error)
              else whole == Prepend(done + values.value,
                                    GatherStream(buf, run.value.1, bw, dict, bitmap, at + m, n - m))
  {
    hide ReadRun, RunPrefix, RunLookup, Select;
    var run := ReadRun(buf, pos, bw);
    if run.Ok? {
      var m := Min(n, RunLen(run.value.0));
      var values := RunLookup(run.value.0, Select(bitmap, at, RunPrefix(run.value.0, m, bw)), dict);
      if values.Ok? {
        PrependTwice(done, values.value, GatherStream(buf, run.value.1, bw, dict, bitmap, at + m, n - m));
      }
    }
  }

  lemma GatherDone<T>(buf: seq<Byte>, pos: nat, bw: nat, dict: seq<T>, bitmap: seq<Byte>, at: nat)
    requires pos <= |buf|
    ensures GatherStream(buf, pos, bw, dict, bitmap, at, 0) == Ok([])
  {
  }
}
