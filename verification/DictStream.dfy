/** What an RLE/bit-packed hybrid stream means, and the exact relations between the ways the decoders
    read it: plain indices, fused dictionary lookup, guarded indices and bitmap-driven gather. */
module DictStream {
  import opened Bits
  import opened Wire
  import opened Bitpack

  datatype Run =
    | Packed(groups: nat, chunk: seq<Byte>)
    | Repeat(count: nat, index: nat)

  /** `(count * 8 * bit_width).div_ceil(8)`. */
  function PackedBytes(groups: nat, bw: nat): nat {
    CeilDiv8(groups * 8 * bw)
  }

  /** One run: a varint header whose low bit tells bit-packed groups of eight from a repeated value. */
  function ReadRun(buf: seq<Byte>, pos: nat, bw: nat): (r: Result<(Run, nat)>)
    requires pos <= |buf|
    ensures r.Ok? ==> pos < r.value.1 <= |buf|
  {
    var (header, p) :- UvarintAt(buf, pos);
    if header % 2 == 1 then
      var needed := PackedBytes(header / 2, bw);
      var chunk :- TakeAt(buf, p, needed);
      Ok((Packed(header / 2, chunk), p + needed))
    else
      var chunk :- TakeAt(buf, p, CeilDiv8(bw));
      Ok((Repeat(header / 2, LeNat(chunk)), p + CeilDiv8(bw)))
  }

  lemma PackedChunkSize(buf: seq<Byte>, pos: nat, bw: nat)
    requires pos <= |buf| && ReadRun(buf, pos, bw).Ok? && ReadRun(buf, pos, bw).value.0.Packed?
    ensures var run := ReadRun(buf, pos, bw).value.0;
            |run.chunk| == run.groups * bw
  {
    hide UvarintAt;
    var header := UvarintAt(buf, pos).value.0;
    assert header / 2 * 8 * bw == 8 * (header / 2 * bw);
  }

  function RunLen(run: Run): nat {
    match run
    case Packed(groups, _) => 8 * groups
    case Repeat(count, _) => count
  }

  /** The first `m` indices of a run. */
  function RunPrefix(run: Run, m: nat, bw: nat): (r: seq<nat>)
    ensures |r| == m
  {
    match run
    case Packed(_, chunk) => Unpacked(chunk, m, bw)
    case Repeat(_, index) => seq(m, _ => index)
  }

  /** The first `n` indices of the stream. */
  function IndexStream(buf: seq<Byte>, pos: nat, bw: nat, n: nat): (r: Result<seq<nat>>)
    requires pos <= |buf|
    ensures r.Ok? ==> |r.value| == n
    decreases |buf| - pos
  {
    if n == 0 then Ok([])
    else
      var (run, next) :- ReadRun(buf, pos, bw);
      var m := Min(n, RunLen(run));
      Prepend(RunPrefix(run, m, bw), IndexStream(buf, next, bw, n - m))
  }

  /** The same, refusing a repeated index at or above `limit` even when the run is empty. */
  function GuardedStream(buf: seq<Byte>, pos: nat, bw: nat, limit: nat, n: nat): (r: Result<seq<nat>>)
    requires pos <= |buf|
    ensures r.Ok? ==> |r.value| == n
    decreases |buf| - pos
  {
    if n == 0 then Ok([])
    else
      var (run, next) :- ReadRun(buf, pos, bw);
      if run.Repeat? && run.index >= limit then Err(DictIndexOutOfRange(run.index, limit))
      else
        var m := Min(n, RunLen(run));
        Prepend(RunPrefix(run, m, bw), GuardedStream(buf, next, bw, limit, n - m))
  }

  /** The fused decoder: every run is looked up as it is read. */
  function LookupStream<T>(buf: seq<Byte>, pos: nat, bw: nat, dict: seq<T>, n: nat): Result<seq<T>>
    requires pos <= |buf|
    decreases |buf| - pos
  {
    if n == 0 then Ok([])
    else
      var (run, next) :- ReadRun(buf, pos, bw);
      var m := Min(n, RunLen(run));
      var values :- RunLookup(run, RunPrefix(run, m, bw), dict);
      Prepend(values, LookupStream(buf, next, bw, dict, n - m))
  }

  /** A repeated index is checked before it is known to be needed; packed ones when they are. */
  function RunLookup<T>(run: Run, indices: seq<nat>, dict: seq<T>): Result<seq<T>> {
    if run.Repeat? && run.index >= |dict| then Err(DictIndexOutOfRange(run.index, |dict|))
    else LookupAll(dict, indices)
  }

  /** The elements whose bit, counted from bit `at` of the bitmap, is set. */
  function Select<T>(bitmap: seq<Byte>, at: nat, s: seq<T>): (r: seq<T>)
    ensures |r| <= |s|
    decreases |s|
  {
    if s == [] then []
    else (if Bit(bitmap, at) == 1 then [s[0]] else []) + Select(bitmap, at + 1, s[1..])
  }

  /** The gathering decoder: only the selected indices of each run are looked up. */
  function GatherStream<T>(buf: seq<Byte>, pos: nat, bw: nat, dict: seq<T>, bitmap: seq<Byte>, at: nat, n: nat):
    Result<seq<T>>
    requires pos <= |buf|
    decreases |buf| - pos
  {
    if n == 0 then Ok([])
    else
      var (run, next) :- ReadRun(buf, pos, bw);
      var m := Min(n, RunLen(run));
      var values :- RunLookup(run, Select(bitmap, at, RunPrefix(run, m, bw)), dict);
      Prepend(values, GatherStream(buf, next, bw, dict, bitmap, at + m, n - m))
  }

  // ----- a page body: the bit width, then the stream -----

  function PageIndices(body: seq<Byte>, n: nat): (r: Result<seq<nat>>)
    ensures r.Ok? ==> |r.value| == n
  {
    if body == [] then Err(EmptyDictPageBody)
    else if body[0] > 32 then Err(BitWidthOutOfRange(body[0]))
    else if n == 0 then Ok([])
    else if body[0] == 0 then Ok(seq(n, _ => 0))
    else IndexStream(body[1..], 0, body[0], n)
  }

  function PageValues<T>(body: seq<Byte>, dict: seq<T>, n: nat): Result<seq<T>> {
    if body == [] then Err(EmptyDictPageBody)
    else if body[0] > 32 then Err(BitWidthOutOfRange(body[0]))
    else if n == 0 then Ok([])
    else if body[0] == 0 then LookupAll(dict, seq(n, _ => 0))
    else LookupStream(body[1..], 0, body[0], dict, n)
  }

  /** With width 0 the only check is that the dictionary is not empty, selected rows or not. */
  function PageGather<T>(body: seq<Byte>, dict: seq<T>, bitmap: seq<Byte>, offset: nat, n: nat): Result<seq<T>> {
    if body == [] then Err(EmptyDictPageBody)
    else if body[0] > 32 then Err(BitWidthOutOfRange(body[0]))
    else if n == 0 then Ok([])
    else if body[0] == 0 then
      if dict == [] then Err(DictIndexOutOfRange(0, 0)) else Ok(Select(bitmap, offset, seq(n, _ => dict[0])))
    else GatherStream(body[1..], 0, body[0], dict, bitmap, offset, n)
  }

  // ----- selecting -----

  lemma {:induction false} SelectAppend<T>(bitmap: seq<Byte>, at: nat, a: seq<T>, b: seq<T>)
    ensures Select(bitmap, at, a + b) == Select(bitmap, at, a) + Select(bitmap, at + |a|, b)
    decreases |a|
  {
    hide Select;
    if a == [] {
      assert a + b == b;
      SelectNothing(bitmap, at, a);
    } else {
      assert (a + b)[1..] == a[1..] + b;
      SelectAppend(bitmap, at + 1, a[1..], b);
      SelectHead(bitmap, at, a);
      SelectHead(bitmap, at, a + b);
      assert at + 1 + |a[1..]| == at + |a|;
    }
  }

  lemma SelectHead<T>(bitmap: seq<Byte>, at: nat, s: seq<T>)
    requires s != []
    ensures Select(bitmap, at, s) == (if Bit(bitmap, at) == 1 then [s[0]] else []) + Select(bitmap, at + 1, s[1..])
  {
    hide Bit;
  }

  /** Looking up the selected indices is selecting from the looked-up values. */
  lemma {:induction false} SelectLookup<T>(dict: seq<T>, idx: seq<nat>, bitmap: seq<Byte>, at: nat)
    requires LookupAll(dict, idx).Ok?
    ensures LookupAll(dict, Select(bitmap, at, idx)) == Ok(Select(bitmap, at, LookupAll(dict, idx).value))
    decreases |idx|
  {
    hide Bit;
    if idx != [] {
      var rest := LookupAll(dict, idx[1..]);
      SelectLookup(dict, idx[1..], bitmap, at + 1);
      var v := LookupAll(dict, idx).value;
      assert v == [dict[idx[0]]] + rest.value && v[1..] == rest.value;
      var sel := Select(bitmap, at + 1, idx[1..]);
      if Bit(bitmap, at) == 1 {
        assert Select(bitmap, at, idx) == [idx[0]] + sel && ([idx[0]] + sel)[1..] == sel;
      } else {
        var selected := Select(bitmap, at + 1, rest.value);
        assert Select(bitmap, at, idx) == sel && [] + sel == sel;
        assert Select(bitmap, at, v) == selected && [] + selected == selected;
      }
    }
  }

  // ----- fused lookup and two-pass lookup -----

  /** Whenever the fused lookup succeeds, so do both passes, with the same values. */
  lemma {:induction false} FusedIsTwoPass<T>(buf: seq<Byte>, pos: nat, bw: nat, dict: seq<T>, n: nat)
    requires pos <= |buf| && LookupStream(buf, pos, bw, dict, n).Ok?
    ensures IndexStream(buf, pos, bw, n).Ok?
    ensures LookupAll(dict, IndexStream(buf, pos, bw, n).value) == LookupStream(buf, pos, bw, dict, n)
    decreases |buf| - pos
  {
    hide ReadRun, RunPrefix, LookupAll;
    if n == 0 {
      LookupNothing(dict);
    } else {
      var (run, next) := ReadRun(buf, pos, bw).value;
      var m := Min(n, RunLen(run));
      FusedIsTwoPass(buf, next, bw, dict, n - m);
      LookupAppend(dict, RunPrefix(run, m, bw), IndexStream(buf, next, bw, n - m).value);
    }
  }

  lemma LookupNothing<T>(dict: seq<T>)
    ensures LookupAll(dict, []) == Ok([])
  {
  }

  /** Every empty RLE run met on the way to `n` values names an index below `limit`. */
  predicate EmptyRunsInRange(buf: seq<Byte>, pos: nat, bw: nat, limit: nat, n: nat)
    requires pos <= |buf|
    decreases |buf| - pos
  {
    n > 0 && ReadRun(buf, pos, bw).Ok? ==>
      var (run, next) := ReadRun(buf, pos, bw).value;
      && (run.Repeat? && run.count == 0 ==> run.index < limit)
      && EmptyRunsInRange(buf, next, bw, limit, n - Min(n, RunLen(run)))
  }

  /** The exact condition: the fused lookup succeeds iff both passes do and no empty RLE run on the
      way carries an index outside the dictionary. */
  lemma {:induction false} FusedSucceedsExactly<T>(buf: seq<Byte>, pos: nat, bw: nat, dict: seq<T>, n: nat)
    requires pos <= |buf|
    ensures LookupStream(buf, pos, bw, dict, n).Ok? <==>
              && IndexStream(buf, pos, bw, n).Ok?
              && LookupAll(dict, IndexStream(buf, pos, bw, n).value).Ok?
              && EmptyRunsInRange(buf, pos, bw, |dict|, n)
    decreases |buf| - pos
  {
    hide ReadRun, RunPrefix, LookupAll;
    if n == 0 {
      LookupNothing(dict);
    } else if ReadRun(buf, pos, bw).Ok? {
      var (run, next) := ReadRun(buf, pos, bw).value;
      var m := Min(n, RunLen(run));
      FusedSucceedsExactly(buf, next, bw, dict, n - m);
      if IndexStream(buf, next, bw, n - m).Ok? {
        LookupAppend(dict, RunPrefix(run, m, bw), IndexStream(buf, next, bw, n - m).value);
      }
      if run.Repeat? && run.count > 0 {
        LookupRepeated(dict, run.index, m);
      }
    }
  }

  lemma LookupRepeated<T>(dict: seq<T>, index: nat, m: nat)
    requires m > 0
    ensures LookupAll(dict, RunPrefix(Repeat(m, index), m, 1)).Ok? <==> index < |dict|
    ensures forall c: nat, bw: nat :: RunPrefix(Repeat(c, index), m, bw) == RunPrefix(Repeat(m, index), m, 1)
  {
    var s := RunPrefix(Repeat(m, index), m, 1);
    LookupAllMeaning(dict, s);
    assert s[0] == index;
  }

  /** The condition is not idle: an empty run with index 5 in front of one row of index 0 decodes in
      two passes against a one-entry dictionary, and the fused decoder refuses it. */
  lemma EmptyRunRefusedOnlyWhenFused(v: int)
    ensures var body: seq<Byte> := [8, 0, 5, 2, 0];
            && PageIndices(body, 1) == Ok([0])
            && LookupAll([v], [0]) == Ok([v])
            && PageValues(body, [v], 1) == Err(DictIndexOutOfRange(5, 1))
  {
    hide ReadRun, LookupAll, RunPrefix;
    var body: seq<Byte> := [8, 0, 5, 2, 0];
    var buf := body[1..];
    assert buf == [0, 5, 2, 0];
    SmallRepeat(buf, 0, 0, 5);
    SmallRepeat(buf, 2, 1, 0);
    LookupAllMeaning([v], [0]);
    assert LookupAll([v], [0]).value == [v];
    assert RunPrefix(Repeat(1, 0), 1, 8) == [0] by { RepeatPrefix(1, 0, 8); }
    assert RunPrefix(Repeat(0, 5), 0, 8) == [] by { RepeatPrefix(0, 5, 8); }
    var zero: seq<nat> := [0];
    assert zero + [] == zero && [] + zero == zero;
    assert IndexStream(buf, 4, 8, 0) == Ok([]);
    assert IndexStream(buf, 2, 8, 1) == Ok([0]);
    assert IndexStream(buf, 0, 8, 1) == Ok([0]);
    assert LookupStream(buf, 0, 8, [v], 1) == Err(DictIndexOutOfRange(5, 1));
  }

  lemma RepeatPrefix(m: nat, index: nat, bw: nat)
    ensures RunPrefix(Repeat(m, index), m, bw) == seq(m, _ => index)
  {
  }

  /** A one-byte RLE run at width 8. */
  lemma SmallRepeat(buf: seq<Byte>, pos: nat, count: nat, index: Byte)
    requires pos + 2 <= |buf| && buf[pos] == 2 * count < 128 && buf[pos + 1] == index
    ensures ReadRun(buf, pos, 8) == Ok((Repeat(count, index), pos + 2))
  {
    hide Leb128, Low, LeNat;
    LebUnfold(buf, pos, 10);
    LowFitsByte(buf[pos]);
    assert UvarintAt(buf, pos) == Ok((2 * count, pos + 1));
    hide UvarintAt;
    assert TakeAt(buf, pos + 1, 1).value == [index];
    LeNatOne(index);
  }

  lemma LowFitsByte(b: Byte)
    ensures Low(b, 64) == b
  {
    hide Low, Mask;
    MaskZero();
    MaskByte(0);
    MaskMono(8, 64);
    LowFits(b, 64);
  }

  lemma LeNatOne(b: Byte)
    ensures LeNat([b]) == b
  {
  }

  // ----- guarded indices -----

  predicate RunsInRange(buf: seq<Byte>, pos: nat, bw: nat, limit: nat, n: nat)
    requires pos <= |buf|
    decreases |buf| - pos
  {
    n > 0 && ReadRun(buf, pos, bw).Ok? ==>
      var (run, next) := ReadRun(buf, pos, bw).value;
      && (run.Repeat? ==> run.index < limit)
      && RunsInRange(buf, next, bw, limit, n - Min(n, RunLen(run)))
  }

  /** The guard only ever refuses a stream because of a repeated index. */
  lemma {:induction false} GuardedIsIndexStream(buf: seq<Byte>, pos: nat, bw: nat, limit: nat, n: nat)
    requires pos <= |buf|
    ensures RunsInRange(buf, pos, bw, limit, n) ==>
              GuardedStream(buf, pos, bw, limit, n) == IndexStream(buf, pos, bw, n)
    ensures !RunsInRange(buf, pos, bw, limit, n) ==> GuardedStream(buf, pos, bw, limit, n).Err?
    decreases |buf| - pos
  {
    hide ReadRun, RunPrefix;
    if n > 0 && ReadRun(buf, pos, bw).Ok? {
      var (run, next) := ReadRun(buf, pos, bw).value;
      GuardedIsIndexStream(buf, next, bw, limit, n - Min(n, RunLen(run)));
    }
  }

  /** Every index of a guarded stream fits the limit when packed ones fit their width. */
  lemma {:induction false} GuardedBound(buf: seq<Byte>, pos: nat, bw: nat, limit: nat, n: nat)
    requires pos <= |buf| && Mask(bw) < limit && GuardedStream(buf, pos, bw, limit, n).Ok?
    ensures forall r :: 0 <= r < n ==> GuardedStream(buf, pos, bw, limit, n).value[r] < limit
    decreases |buf| - pos
  {
    hide ReadRun, Mask, Fields, RunPrefix;
    if n > 0 {
      var (run, next) := ReadRun(buf, pos, bw).value;
      var m := Min(n, RunLen(run));
      GuardedBound(buf, next, bw, limit, n - m);
      RunPrefixBound(run, m, bw, limit);
    }
  }

  lemma RunPrefixBound(run: Run, m: nat, bw: nat, limit: nat)
    requires Mask(bw) < limit && (run.Repeat? ==> run.index < limit)
    ensures forall r :: 0 <= r < m ==> RunPrefix(run, m, bw)[r] < limit
  {
    hide Mask, Fields;
    if run.Packed? {
      forall r | 0 <= r < m
        ensures RunPrefix(run, m, bw)[r] < limit
      {
        FieldsAt(run.chunk, 0, m, bw, r);
      }
    }
  }

  // ----- gather -----

  /** Late gather refines the full decode: whenever that succeeds, the gather succeeds with exactly
      the selected values, in order. */
  lemma {:induction false} GatherRefinesLookup<T>(buf: seq<Byte>, pos: nat, bw: nat, dict: seq<T>, bitmap: seq<Byte>, at: nat, n: nat)
    requires pos <= |buf| && LookupStream(buf, pos, bw, dict, n).Ok?
    ensures GatherStream(buf, pos, bw, dict, bitmap, at, n)
         == Ok(Select(bitmap, at, LookupStream(buf, pos, bw, dict, n).value))
    decreases |buf| - pos
  {
    hide ReadRun, RunPrefix, LookupAll;
    if n > 0 {
      var (run, next) := ReadRun(buf, pos, bw).value;
      var m := Min(n, RunLen(run));
      var idx := RunPrefix(run, m, bw);
      GatherRefinesLookup(buf, next, bw, dict, bitmap, at + m, n - m);
      SelectLookup(dict, idx, bitmap, at);
      LookupAllMeaning(dict, idx);
      SelectAppend(bitmap, at, LookupAll(dict, idx).value, LookupStream(buf, next, bw, dict, n - m).value);
    }
  }

  lemma SelectNothing<T>(bitmap: seq<Byte>, at: nat, s: seq<T>)
    requires s == []
    ensures Select(bitmap, at, s) == []
  {
  }

  /** Guarded indices, then selection, then lookup. */
  function TwoPassGather<T>(buf: seq<Byte>, pos: nat, bw: nat, dict: seq<T>, bitmap: seq<Byte>, at: nat, n: nat):
    Result<seq<T>>
    requires pos <= |buf|
  {
    var idx :- GuardedStream(buf, pos, bw, |dict|, n);
    LookupAll(dict, Select(bitmap, at, idx))
  }

  /** The exact condition for a gather: every RLE run in range, and every selected index. */
  lemma {:induction false} GatherSucceedsExactly<T>(buf: seq<Byte>, pos: nat, bw: nat, dict: seq<T>, bitmap: seq<Byte>, at: nat, n: nat)
    requires pos <= |buf|
    ensures var two := TwoPassGather(buf, pos, bw, dict, bitmap, at, n);
            && (GatherStream(buf, pos, bw, dict, bitmap, at, n).Ok? <==> two.Ok?)
            && (two.Ok? ==> GatherStream(buf, pos, bw, dict, bitmap, at, n) == two)
    decreases |buf| - pos
  {
    hide ReadRun, RunPrefix, LookupAll, Select;
    if n == 0 {
      LookupNothing(dict);
      SelectNothing<nat>(bitmap, at, []);
    } else if ReadRun(buf, pos, bw).Ok? {
      var (run, next) := ReadRun(buf, pos, bw).value;
      var m := Min(n, RunLen(run));
      var idx := RunPrefix(run, m, bw);
      GatherSucceedsExactly(buf, next, bw, dict, bitmap, at + m, n - m);
      var rest := GuardedStream(buf, next, bw, |dict|, n - m);
      if rest.Ok? {
        SelectAppend(bitmap, at, idx, rest.value);
        LookupAppend(dict, Select(bitmap, at, idx), Select(bitmap, at + m, rest.value));
      }
    }
  }

  // ----- the same for whole pages -----

  lemma PageFusedIsTwoPass<T>(body: seq<Byte>, dict: seq<T>, n: nat)
    requires PageValues(body, dict, n).Ok?
    ensures PageIndices(body, n).Ok?
    ensures LookupAll(dict, PageIndices(body, n).value) == PageValues(body, dict, n)
  {
    hide IndexStream, LookupStream, LookupAll;
    LookupNothing(dict);
    if n > 0 && body[0] > 0 {
      FusedIsTwoPass(body[1..], 0, body[0], dict, n);
    }
  }

  /** The empty RLE runs of a page name indices below `limit`. */
  predicate PageEmptyRunsInRange(body: seq<Byte>, limit: nat, n: nat) {
    body != [] && 0 < body[0] <= 32 ==> EmptyRunsInRange(body[1..], 0, body[0], limit, n)
  }

  /** The exact condition for whole pages. */
  lemma PageFusedSucceedsExactly<T>(body: seq<Byte>, dict: seq<T>, n: nat)
    ensures PageValues(body, dict, n).Ok? <==>
              && PageIndices(body, n).Ok?
              && LookupAll(dict, PageIndices(body, n).value).Ok?
              && PageEmptyRunsInRange(body, |dict|, n)
  {
    hide IndexStream, LookupStream, LookupAll, ReadRun;
    LookupNothing(dict);
    if body != [] && 0 < body[0] <= 32 {
      FusedSucceedsExactly(body[1..], 0, body[0], dict, n);
    }
  }

  lemma PageGatherRefinesDecode<T>(body: seq<Byte>, dict: seq<T>, bitmap: seq<Byte>, offset: nat, n: nat)
    requires PageValues(body, dict, n).Ok?
    ensures PageGather(body, dict, bitmap, offset, n) == Ok(Select(bitmap, offset, PageValues(body, dict, n).value))
  {
    hide GatherStream, LookupStream, LookupAll;
    if n > 0 && body[0] > 0 {
      GatherRefinesLookup(body[1..], 0, body[0], dict, bitmap, offset, n);
    } else if n > 0 {
      var zeros := seq(n, _ => 0);
      LookupAllMeaning(dict, zeros);
      assert zeros[0] == 0;
      assert LookupAll(dict, zeros).value == seq(n, _ => dict[0]);
    }
  }

  /** The exact condition for a gather of a whole page, unselected rows included: at width 0 the
      dictionary must not be empty, at others every RLE run met must be in range, and every selected
      index; the result is the decode, the selection and the lookup one after another. */
  lemma PageGatherSucceedsExactly<T>(body: seq<Byte>, dict: seq<T>, bitmap: seq<Byte>, offset: nat, n: nat)
    ensures var idx := PageIndices(body, n);
            var picked := if idx.Ok? then LookupAll(dict, Select(bitmap, offset, idx.value)) else Err(idx.error);
            && (PageGather(body, dict, bitmap, offset, n).Ok? <==>
                  && picked.Ok?
                  && (n > 0 ==> if body[0] == 0 then dict != [] else RunsInRange(body[1..], 0, body[0], |dict|, n)))
            && (PageGather(body, dict, bitmap, offset, n).Ok? ==> PageGather(body, dict, bitmap, offset, n) == picked)
    ensures body != [] && body[0] == 0 && n > 0 && dict == [] ==>
              PageGather(body, dict, bitmap, offset, n) == Err(DictIndexOutOfRange(0, 0))
  {
    hide GatherStream, GuardedStream, IndexStream, RunsInRange, LookupAll, Select, LeNat;
    if body != [] && body[0] <= 32 {
      if n == 0 {
        SelectNothing<nat>(bitmap, offset, []);
        LookupNothing(dict);
      } else if body[0] > 0 {
        GatherSucceedsExactly(body[1..], 0, body[0], dict, bitmap, offset, n);
        GuardedIsIndexStream(body[1..], 0, body[0], |dict|, n);
      } else if dict != [] {
        var zeros := seq(n, _ => 0);
        ZerosLookUp(dict, n);
        SelectLookup(dict, zeros, bitmap, offset);
      }
    }
  }

  lemma ZerosLookUp<T>(dict: seq<T>, n: nat)
    requires dict != []
    ensures LookupAll(dict, seq(n, _ => 0)) == Ok(seq(n, _ => dict[0]))
  {
    var zeros := seq(n, _ => 0);
    LookupAllMeaning(dict, zeros);
    assert LookupAll(dict, zeros).value == seq(n, _ => dict[0]);
  }

  /** The width byte is checked before anything else, even for no rows. */
  lemma WidthByteFirst<T>(body: seq<Byte>, dict: seq<T>, bitmap: seq<Byte>, offset: nat, n: nat)
    requires body == [] || body[0] > 32
    ensures var e := if body == [] then EmptyDictPageBody else BitWidthOutOfRange(body[0]);
            && PageIndices(body, n) == Err(e)
            && PageValues(body, dict, n) == Err(e)
            && PageGather(body, dict, bitmap, offset, n) == Err(e)
  {
  }

  /** The walkers that check fail as the stream does, or name an index outside their limit. */
  lemma {:induction false} WalkerErrors<T>(buf: seq<Byte>, pos: nat, bw: nat, dict: seq<T>, bitmap: seq<Byte>, at: nat, n: nat)
    requires pos <= |buf|
    ensures LookupStream(buf, pos, bw, dict, n).Err? ==> ErrorOf(LookupStream(buf, pos, bw, dict, n).error, buf, pos, bw, |dict|, n)
    ensures GuardedStream(buf, pos, bw, |dict|, n).Err? ==> ErrorOf(GuardedStream(buf, pos, bw, |dict|, n).error, buf, pos, bw, |dict|, n)
    ensures GatherStream(buf, pos, bw, dict, bitmap, at, n).Err? ==>
              ErrorOf(GatherStream(buf, pos, bw, dict, bitmap, at, n).error, buf, pos, bw, |dict|, n)
    decreases |buf| - pos
  {
    hide ReadRun, RunPrefix, Select, LookupAll;
    if n > 0 && ReadRun(buf, pos, bw).Ok? {
      var (run, next) := ReadRun(buf, pos, bw).value;
      var m := Min(n, RunLen(run));
      var idx := RunPrefix(run, m, bw);
      LookupErrors(dict, idx);
      LookupErrors(dict, Select(bitmap, at, idx));
      WalkerErrors(buf, next, bw, dict, bitmap, at + m, n - m);
    }
  }

  predicate ErrorOf(e: CodecError, buf: seq<Byte>, pos: nat, bw: nat, limit: nat, n: nat)
    requires pos <= |buf|
  {
    IndexStream(buf, pos, bw, n) == Err(e) || (e.DictIndexOutOfRange? && e.index >= limit == e.dictSize)
  }

  lemma {:induction false} LookupErrors<T>(dict: seq<T>, idx: seq<nat>)
    ensures LookupAll(dict, idx).Err? ==>
              LookupAll(dict, idx).error.DictIndexOutOfRange? && LookupAll(dict, idx).error.index >= |dict| == LookupAll(dict, idx).error.dictSize
  {
    if idx != [] {
      LookupErrors(dict, idx[1..]);
    }
  }
}
