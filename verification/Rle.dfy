/** The RLE/bit-packed hybrid writer and the reader of `rle.rs`, and that a written stream reads back. */
module Rle {
  import opened Bits
  import opened Bitmaps
  import opened Wire
  import opened DictStream
  import opened DictDecode
  import opened Packing

  // ----- varints -----

  function LebBytes(v: nat): (r: seq<Byte>)
    ensures r != []
  {
    if v < 128 then [v] else [v % 128 + 128] + LebBytes(v / 128)
  }

  lemma ContinuationByte(v: nat)
    ensures Or(And(v % 256, 0x7F), 0x80) == v % 128 + 128
  {
    hide And, Or, Mask, Up;
    ContinuationBit(v % 256);
    Septet(1);
    OrDisjoint(v % 128, 1, 7);
    assert v % 256 % 128 == v % 128;
  }

  lemma ShrSeven(v: nat)
    ensures Shr(v, 7) == v / 128
  {
    hide Shr, Up, Mask;
    Septet(v / 128);
    ShrSplit(v % 128, v / 128, 7);
  }

  /** `write_uvarint`. */
  method WriteUvarint(out0: seq<Byte>, v0: nat) returns (out: seq<Byte>)
    ensures out == out0 + LebBytes(v0)
  {
    hide And, Or, Shr;
    var v: nat := v0;
    out := out0;
    while v >= 0x80
      invariant out + LebBytes(v) == out0 + LebBytes(v0)
    {
      ContinuationByte(v);
      ShrSeven(v);
      assert out + ([v % 128 + 128] + LebBytes(v / 128)) == out + [v % 128 + 128] + LebBytes(v / 128);
      out := out + [Or(And(v % 256, 0x7F), 0x80)];
      v := Shr(v, 7);
    }
    out := out + [v];
  }

  /** Room for the value in `left` groups of seven bits. */
  function Septets(left: nat): nat {
    if left == 0 then 1 else 128 * Septets(left - 1)
  }

  /** The shortest form: no more groups than the value needs. */
  lemma {:induction false} LebIsShortest(v: nat, k: nat)
    requires k > 0
    ensures |LebBytes(v)| <= k <==> v < Septets(k)
    decreases k
  {
    if k > 1 && v >= 128 {
      LebIsShortest(v / 128, k - 1);
    } else if v >= 128 {
      assert Septets(1) == 128 * Septets(0);
    } else {
      SeptetsGrow(k);
    }
  }

  lemma {:induction false} SeptetsGrow(k: nat)
    requires k > 0
    ensures Septets(k) >= 128
  {
    if k > 1 {
      SeptetsGrow(k - 1);
    }
  }

  lemma {:induction false} LebRoundTrip(v: nat, left: nat)
    requires left > 0 && v < Septets(left)
    ensures Leb128(LebBytes(v), 0, left) == Ok((v, |LebBytes(v)|))
    decreases left
  {
    if v >= 128 {
      var t := LebBytes(v / 128);
      var s := LebBytes(v);
      LebRoundTrip(v / 128, left - 1);
      assert s[1..1 + |t|] == t;
      LebLocal(t, 0, s, 1, left - 1);
      assert s[0] == v % 128 + 128;
      LebUnfold(s, 0, left);
    }
  }

  lemma UvarintRoundTrip(v: nat)
    requires v < U64_MODULUS
    ensures UvarintAt(LebBytes(v), 0) == Ok((v, |LebBytes(v)|))
  {
    hide LebBytes, Leb128, Low, Mask;
    assert Septets(2) == 0x4000;
    assert Septets(4) == 0x4000 * 0x4000;
    assert Septets(6) == 0x4000 * Septets(4);
    assert Septets(8) == 0x4000 * Septets(6);
    assert Septets(10) == 0x4000 * Septets(8);
    LebRoundTrip(v, 10);
    MaskValues();
    LowFits(v, 64);
  }

  // ----- runs as bytes -----

  /** A run that can be written at width `bw`: whole groups of packed bytes, or an index that fits. */
  predicate Writable(run: Run, bw: nat) {
    match run
    case Packed(groups, chunk) => 2 * groups + 1 < U64_MODULUS && |chunk| == groups * bw
    case Repeat(count, index) => 2 * count < U64_MODULUS && index <= Mask(8 * CeilDiv8(bw))
  }

  function RunText(run: Run, bw: nat): seq<Byte> {
    match run
    case Packed(groups, chunk) => LebBytes(2 * groups + 1) + chunk
    case Repeat(count, index) => LebBytes(2 * count) + LeBytes(index, CeilDiv8(bw))
  }

  /** A written run is read back wherever it lies. */
  lemma RunRoundTrip(pre: seq<Byte>, run: Run, rest: seq<Byte>, bw: nat)
    requires Writable(run, bw)
    ensures ReadRun(pre + RunText(run, bw) + rest, |pre|, bw) == Ok((run, |pre| + |RunText(run, bw)|))
  {
    hide LebBytes, LeBytes, LeNat, UvarintAt, Mask, Writable, TakeAt, PackedBytes, Inside;
    var header := if run.Packed? then 2 * run.groups + 1 else 2 * run.count;
    var head := LebBytes(header);
    var body := if run.Packed? then run.chunk else LeBytes(run.index, CeilDiv8(bw));
    var buf := pre + RunText(run, bw) + rest;
    HeaderFits(run, bw);
    UvarintRoundTrip(header);
    RunParts(pre, head, body, rest);
    assert buf == pre + (head + body) + rest;
    UvarintLocal(head, 0, buf, |pre|);
    if run.Packed? {
      PackedSize(run.groups, bw);
    } else {
      LeBytesRoundTrip(run.index, CeilDiv8(bw));
    }
  }

  lemma RunParts(pre: seq<Byte>, head: seq<Byte>, body: seq<Byte>, rest: seq<Byte>)
    ensures var buf := pre + (head + body) + rest;
            && Inside(head, buf, |pre|)
            && |pre| + |head| + |body| <= |buf| && TakeAt(buf, |pre| + |head|, |body|) == Ok(body)
  {
    var buf := pre + (head + body) + rest;
    assert buf[|pre|..|pre| + |head|] == head;
    assert buf[|pre| + |head|..|pre| + |head| + |body|] == body;
  }

  lemma HeaderFits(run: Run, bw: nat)
    requires Writable(run, bw)
    ensures run.Packed? ==> 2 * run.groups + 1 < U64_MODULUS && |run.chunk| == run.groups * bw
    ensures run.Repeat? ==> 2 * run.count < U64_MODULUS && run.index <= Mask(8 * CeilDiv8(bw))
  {
    hide Mask;
  }

  lemma PackedSize(groups: nat, bw: nat)
    ensures (2 * groups + 1) / 2 == groups && (2 * groups + 1) % 2 == 1
    ensures PackedBytes(groups, bw) == groups * bw
  {
    assert groups * 8 * bw == 8 * (groups * bw);
  }

  // ----- a list of runs -----

  function Serialised(runs: seq<Run>, bw: nat): seq<Byte> {
    if runs == [] then [] else RunText(runs[0], bw) + Serialised(runs[1..], bw)
  }

  function RunValues(run: Run, bw: nat): seq<nat> {
    RunPrefix(run, RunLen(run), bw)
  }

  function AllValues(runs: seq<Run>, bw: nat): seq<nat> {
    if runs == [] then [] else RunValues(runs[0], bw) + AllValues(runs[1..], bw)
  }

  predicate AllWritable(runs: seq<Run>, bw: nat) {
    runs == [] || (Writable(runs[0], bw) && AllWritable(runs[1..], bw))
  }

  lemma RunPrefixIsPrefix(run: Run, m: nat, bw: nat)
    requires m <= RunLen(run)
    ensures |RunValues(run, bw)| == RunLen(run) && RunPrefix(run, m, bw) == RunValues(run, bw)[..m]
  {
    hide Fields;
    if run.Packed? {
      FieldsSplit(run.chunk, 0, m, RunLen(run) - m, bw);
    }
  }

  /** The stream of a list of runs, read for the first `n` values. */
  lemma {:induction false} StreamRoundTrip(pre: seq<Byte>, runs: seq<Run>, bw: nat, n: nat)
    requires AllWritable(runs, bw) && n <= |AllValues(runs, bw)|
    ensures IndexStream(pre + Serialised(runs, bw), |pre|, bw, n) == Ok(AllValues(runs, bw)[..n])
    decreases |runs|
  {
    hide ReadRun, RunText, RunPrefix, Writable;
    if n > 0 {
      var run := runs[0];
      var text, rest := RunText(run, bw), Serialised(runs[1..], bw);
      var buf := pre + Serialised(runs, bw);
      assert buf == pre + text + rest;
      RunRoundTrip(pre, run, rest, bw);
      var m := Min(n, RunLen(run));
      RunPrefixIsPrefix(run, m, bw);
      StreamRoundTrip(pre + text, runs[1..], bw, n - m);
      assert |pre + text| == |pre| + |text|;
      assert AllValues(runs, bw)[..n] == RunValues(run, bw)[..m] + AllValues(runs[1..], bw)[..n - m];
    }
  }

  lemma {:induction false} SerialisedSnoc(runs: seq<Run>, run: Run, bw: nat)
    ensures Serialised(runs + [run], bw) == Serialised(runs, bw) + RunText(run, bw)
    ensures AllValues(runs + [run], bw) == AllValues(runs, bw) + RunValues(run, bw)
    ensures AllWritable(runs, bw) && Writable(run, bw) ==> AllWritable(runs + [run], bw)
    decreases |runs|
  {
    hide RunText, RunValues, Writable;
    if runs == [] {
      assert runs + [run] == [run] && [run][1..] == [];
      assert RunText(run, bw) + [] == RunText(run, bw) && RunValues(run, bw) + [] == RunValues(run, bw);
    } else {
      assert (runs + [run])[1..] == runs[1..] + [run];
      SerialisedSnoc(runs[1..], run, bw);
      assert RunText(runs[0], bw) + (Serialised(runs[1..], bw) + RunText(run, bw))
          == RunText(runs[0], bw) + Serialised(runs[1..], bw) + RunText(run, bw);
      assert RunValues(runs[0], bw) + (AllValues(runs[1..], bw) + RunValues(run, bw))
          == RunValues(runs[0], bw) + AllValues(runs[1..], bw) + RunValues(run, bw);
    }
  }

  // ----- which runs are written -----

  /** A run without its values. */
  datatype Shape = PackedGroups(groups: nat) | Repeated(count: nat, index: nat)

  function ShapeOf(run: Run): Shape {
    match run
    case Packed(groups, _) => PackedGroups(groups)
    case Repeat(count, index) => Repeated(count, index)
  }

  function Shapes(runs: seq<Run>): seq<Shape> {
    seq(|runs|, i requires 0 <= i < |runs| => ShapeOf(runs[i]))
  }

  /** How many equal values start at `i`. */
  function Stretch(indices: seq<nat>, i: nat): (n: nat)
    requires i < |indices|
    ensures n > 0 && i + n <= |indices|
    decreases |indices| - i
  {
    if i + 1 < |indices| && indices[i + 1] == indices[i] then 1 + Stretch(indices, i + 1) else 1
  }

  /** Values that fill up the last group of `pending` ones. */
  function Borrow(pending: nat): (b: nat)
    ensures b < 8 && (pending + b) % 8 == 0
  {
    if pending % 8 == 0 then 0 else 8 - pending % 8
  }

  /** From `i` on, with `pending` values before it still to be packed: a stretch that leaves at least
      eight values after filling up the last group is repeated, any other joins the pending ones. */
  function Plan(indices: seq<nat>, i: nat, pending: nat): seq<Shape>
    decreases |indices| - i
  {
    if i >= |indices| then if pending > 0 then [PackedGroups(CeilDiv8(pending))] else []
    else
      var n, borrow := Stretch(indices, i), Borrow(pending);
      if n >= 8 + borrow then
        (if pending + borrow > 0 then [PackedGroups((pending + borrow) / 8)] else [])
        + [Repeated(n - borrow, indices[i])] + Plan(indices, i + n, 0)
      else Plan(indices, i + n, pending + n)
  }

  /** No eight equal values in a row. */
  predicate ShortStretches(s: seq<nat>) {
    forall i: nat :: i < |s| ==> Stretch(s, i) < 8
  }

  function Copies(v: nat, n: nat): (r: seq<nat>)
    ensures |r| == n
  {
    seq(n, _ => v)
  }

  /** `p` values without long stretches, then `n` equal ones: the group they break is filled up from the
      stretch, the rest of it is one repeated run; or everything is packed when fewer than eight would
      be left. */
  function OneStretch(p: nat, v: nat, n: nat): seq<Shape> {
    var borrow := if p % 8 == 0 then 0 else 8 - p % 8;
    if n >= 8 + borrow then
      if p == 0 then [Repeated(n, v)] else [PackedGroups((p + borrow) / 8), Repeated(n - borrow, v)]
    else if p + n > 0 then [PackedGroups(CeilDiv8(p + n))]
    else []
  }

  lemma PlanMeaning(a: seq<nat>, v: nat, n: nat)
    requires ShortStretches(a) && (a == [] || a[|a| - 1] != v)
    ensures Plan(a + Copies(v, n), 0, 0) == OneStretch(|a|, v, n)
  {
    hide Plan, Stretch, ShortStretches, Copies, OneStretch;
    PlanShort(a, v, n, 0);
    if n > 0 {
      StretchOfCopies(a, v, n, |a|);
    }
    PlanOfLast(a + Copies(v, n), |a|, v, n);
  }

  /** The last stretch, with everything before it still to be packed. */
  lemma PlanOfLast(s: seq<nat>, p: nat, v: nat, n: nat)
    requires |s| == p + n && (n > 0 ==> Stretch(s, p) == n && s[p] == v)
    ensures Plan(s, p, p) == OneStretch(p, v, n)
  {
    hide Plan, Stretch;
    PlanUnfold(s, p, p);
    PlanUnfold(s, p + n, p + n);
    PlanUnfold(s, p + n, 0);
    if n > 0 && n >= 8 + Borrow(p) {
      var repeated := [Repeated(n - Borrow(p), v)];
      assert repeated + [] == repeated && [] + repeated == repeated;
      if p > 0 {
        var packed := [PackedGroups((p + Borrow(p)) / 8)];
        assert packed + repeated + [] == [packed[0], repeated[0]];
      }
    }
  }

  lemma PlanUnfold(indices: seq<nat>, i: nat, pending: nat)
    ensures i >= |indices| ==> Plan(indices, i, pending) == if pending > 0 then [PackedGroups(CeilDiv8(pending))] else []
    ensures i < |indices| ==>
              var n, borrow := Stretch(indices, i), Borrow(pending);
              Plan(indices, i, pending)
              == if n >= 8 + borrow then
                   (if pending + borrow > 0 then [PackedGroups((pending + borrow) / 8)] else [])
                   + [Repeated(n - borrow, indices[i])] + Plan(indices, i + n, 0)
                 else Plan(indices, i + n, pending + n)
  {
    hide Stretch;
  }

  lemma {:induction false} PlanShort(a: seq<nat>, v: nat, n: nat, i: nat)
    requires ShortStretches(a) && (a == [] || a[|a| - 1] != v) && i <= |a|
    ensures Plan(a + Copies(v, n), i, i) == Plan(a + Copies(v, n), |a|, |a|)
    decreases |a| - i
  {
    hide Plan, Stretch, Copies;
    var s := a + Copies(v, n);
    if i < |a| {
      StretchInFront(a, v, n, i);
      PlanUnfold(s, i, i);
      PlanShort(a, v, n, i + Stretch(a, i));
    }
  }

  lemma {:induction false} StretchInFront(a: seq<nat>, v: nat, n: nat, i: nat)
    requires i < |a| && a[|a| - 1] != v
    ensures Stretch(a + Copies(v, n), i) == Stretch(a, i)
    decreases |a| - i
  {
    if i + 1 < |a| {
      StretchInFront(a, v, n, i + 1);
    }
  }

  lemma {:induction false} StretchOfCopies(a: seq<nat>, v: nat, n: nat, i: nat)
    requires |a| <= i < |a| + n
    ensures Stretch(a + Copies(v, n), i) == |a| + n - i && (a + Copies(v, n))[i] == v
    decreases |a| + n - i
  {
    if i + 1 < |a| + n {
      StretchOfCopies(a, v, n, i + 1);
    }
  }

  /** No repeated run is shorter than eight. */
  lemma {:induction false} RepeatsAreLong(indices: seq<nat>, i: nat, pending: nat)
    ensures forall k :: 0 <= k < |Plan(indices, i, pending)| && Plan(indices, i, pending)[k].Repeated? ==>
              Plan(indices, i, pending)[k].count >= 8
    decreases |indices| - i
  {
    hide Plan, Stretch;
    PlanUnfold(indices, i, pending);
    if i < |indices| {
      RepeatsAreLong(indices, i + Stretch(indices, i), 0);
      RepeatsAreLong(indices, i + Stretch(indices, i), pending + Stretch(indices, i));
    }
  }

  // ----- the writer -----

  /** What has been written so far stands for `values`. */
  ghost predicate Written(out: seq<Byte>, runs: seq<Run>, values: seq<nat>, bw: nat) {
    out == Serialised(runs, bw) && AllWritable(runs, bw) && AllValues(runs, bw) == values
  }

  lemma OneMoreRun(out: seq<Byte>, runs: seq<Run>, values: seq<nat>, run: Run, bw: nat)
    requires Written(out, runs, values, bw) && Writable(run, bw)
    ensures Written(out + RunText(run, bw), runs + [run], values + RunValues(run, bw), bw)
  {
    hide RunText, RunValues, Writable;
    SerialisedSnoc(runs, run, bw);
  }

  /** A header and the packed values, whole groups of eight. */
  method WritePacked(out0: seq<Byte>, pending: seq<nat>, bw: nat, ghost runs: seq<Run>, ghost values: seq<nat>)
    returns (out: seq<Byte>, ghost newRuns: seq<Run>)
    requires |pending| % 8 == 0 && |pending| < 0x1_0000_0000_0000_0000 && Fit(pending, bw)
    requires Written(out0, runs, values, bw)
    ensures Written(out, newRuns, values + pending, bw)
    ensures Shapes(newRuns) == Shapes(runs) + [PackedGroups(|pending| / 8)]
  {
    hide Fit, Written, Filled, AllBits, BitsOf, LebBytes, Writable, RunText, RunValues;
    var groups := |pending| / 8;
    out := WriteUvarint(out0, 2 * groups + 1);
    ghost var head := out;
    out := PackLsbFirst(out, pending, bw);
    PackRoundTrip(head, out, pending, bw);
    ghost var run := Packed(groups, out[|head|..]);
    PackedRunIs(run, pending, bw);
    OneMoreRun(out0, runs, values, run, bw);
    newRuns := runs + [run];
    PackedText(run, bw);
    assert out == head + out[|head|..];
    assert out == out0 + RunText(run, bw);
  }

  lemma PackedRunIs(run: Run, pending: seq<nat>, bw: nat)
    requires run.Packed? && |run.chunk| == run.groups * bw && |pending| == 8 * run.groups
    requires |pending| < U64_MODULUS && Unpacked(run.chunk, |pending|, bw) == pending
    ensures Writable(run, bw) && RunValues(run, bw) == pending
  {
    hide Fields;
  }

  lemma PackedText(run: Run, bw: nat)
    requires run.Packed?
    ensures RunText(run, bw) == LebBytes(2 * run.groups + 1) + run.chunk
  {
  }

  /** A header and the repeated value's little-endian bytes. */
  method WriteRepeat(out0: seq<Byte>, count: nat, v: nat, bw: nat, ghost runs: seq<Run>, ghost values: seq<nat>)
    returns (out: seq<Byte>, ghost newRuns: seq<Run>)
    requires count < 0x4000_0000_0000_0000 && v <= Mask(bw) && Written(out0, runs, values, bw)
    ensures Written(out, newRuns, values + seq(count, _ => v), bw)
    ensures Shapes(newRuns) == Shapes(runs) + [Repeated(count, v)]
  {
    hide Written, LebBytes, LeBytes, Mask, RunText, Writable;
    out := WriteUvarint(out0, 2 * count);
    var valueBytes := CeilDiv8(bw);
    ghost var head := out;
    var value := v;
    NoBytes(v, valueBytes);
    for b := 0 to valueBytes
      invariant out + LeBytes(value, valueBytes - b) == head + LeBytes(v, valueBytes)
    {
      LeBytesUnfold(value, valueBytes - b);
      out := out + [value % 256];
      value := value / 256;
    }
    LastByte(value);
    ghost var run := Repeat(count, v);
    MaskMono(bw, 8 * CeilDiv8(bw));
    RepeatRunIs(run, bw);
    OneMoreRun(out0, runs, values, run, bw);
    newRuns := runs + [run];
    assert out + [] == out;
    assert out0 + LebBytes(2 * count) + LeBytes(v, valueBytes) == out0 + (LebBytes(2 * count) + LeBytes(v, valueBytes));
    assert out == out0 + RunText(run, bw);
    assert RunValues(run, bw) == seq(count, _ => v);
  }

  lemma NoBytes(v: nat, n: nat)
    ensures LeBytes(v, n - 0) == LeBytes(v, n)
  {
  }

  lemma LastByte(v: nat)
    ensures LeBytes(v, 0) == []
  {
  }

  lemma RepeatRunIs(run: Run, bw: nat)
    requires run.Repeat? && run.count < 0x4000_0000_0000_0000 && run.index <= Mask(8 * CeilDiv8(bw))
    ensures Writable(run, bw)
    ensures RunText(run, bw) == LebBytes(2 * run.count) + LeBytes(run.index, CeilDiv8(bw))
  {
    hide Mask, LebBytes, LeBytes;
  }

  /** The end of the stretch of values equal to the one at `i`. */
  method RunEnd(indices: seq<nat>, i: nat) returns (j: nat)
    requires i < |indices|
    ensures j == i + Stretch(indices, i)
    ensures indices[i..j] == seq(j - i, _ => indices[i])
  {
    var v := indices[i];
    j := i + 1;
    while j < |indices| && indices[j] == v
      invariant i < j <= |indices| && indices[i..j] == seq(j - i, _ => v) && indices[j - 1] == v
      invariant Stretch(indices, i) == j - 1 - i + Stretch(indices, j - 1)
    {
      assert indices[i..j + 1] == indices[i..j] + [v];
      j := j + 1;
    }
  }

  lemma FitCopies(v: nat, n: nat, bw: nat)
    requires v <= Mask(bw)
    ensures Fit(seq(n, _ => v), bw)
  {
    hide Mask;
    if n > 0 {
      assert seq(n, _ => v)[1..] == seq(n - 1, _ => v);
      FitCopies(v, n - 1, bw);
    }
  }

  lemma {:induction false} FitAppend(a: seq<nat>, b: seq<nat>, bw: nat)
    ensures Fit(a + b, bw) <==> Fit(a, bw) && Fit(b, bw)
    decreases |a|
  {
    hide Mask;
    if a == [] {
      assert a + b == b;
    } else {
      assert (a + b)[1..] == a[1..] + b;
      FitAppend(a[1..], b, bw);
    }
  }

  lemma {:induction false} FitAt(values: seq<nat>, bw: nat, i: nat)
    requires Fit(values, bw) && i < |values|
    ensures values[i] <= Mask(bw)
  {
    hide Mask;
    if i > 0 {
      FitAt(values[1..], bw, i - 1);
    }
  }

  /** The writer's state after the first `i` indices: runs written, and values still to be packed. */
  ghost predicate Progress(indices: seq<nat>, i: nat, bw: nat, out: seq<Byte>, runs: seq<Run>, values: seq<nat>, pending: seq<nat>) {
    && i <= |indices|
    && Written(out, runs, values, bw)
    && values + pending == indices[..i]
    && Fit(pending, bw)
  }

  lemma Start(indices: seq<nat>, bw: nat)
    ensures Progress(indices, 0, bw, [], [], [], [])
  {
  }

  lemma CopiesPrefix(v: nat, m: nat, n: nat)
    requires n <= m
    ensures seq(m, _ => v)[..n] == seq(n, _ => v)
  {
    var a, b := seq(m, _ => v)[..n], seq(n, _ => v);
    assert forall k :: 0 <= k < n ==> a[k] == b[k];
  }

  /** Pending values grow by part of the current stretch. */
  lemma Borrowed(indices: seq<nat>, i: nat, j: nat, bw: nat, out: seq<Byte>, runs: seq<Run>, values: seq<nat>, pending: seq<nat>, n: nat)
    requires Progress(indices, i, bw, out, runs, values, pending) && Fit(indices, bw)
    requires i < j <= |indices| && indices[i..j] == seq(j - i, _ => indices[i]) && n <= j - i
    ensures Progress(indices, i + n, bw, out, runs, values, pending + seq(n, _ => indices[i]))
  {
    hide Written, Fit, Mask;
    var part := seq(n, _ => indices[i]);
    assert indices[i..i + n] == indices[i..j][..n];
    CopiesPrefix(indices[i], j - i, n);
    assert indices[..i + n] == indices[..i] + part;
    assert values + (pending + part) == values + pending + part;
    FitAt(indices, bw, i);
    FitCopies(indices[i], n, bw);
    FitAppend(pending, part, bw);
  }

  /** Everything pending is written, the rest of the stretch follows as one repeated run. */
  lemma Flushed(indices: seq<nat>, i: nat, n: nat, bw: nat, out: seq<Byte>, runs: seq<Run>, values: seq<nat>, v: nat)
    requires i + n <= |indices| && values == indices[..i] && indices[i..i + n] == seq(n, _ => v)
    requires Written(out, runs, values + seq(n, _ => v), bw)
    ensures Progress(indices, i + n, bw, out, runs, values + seq(n, _ => v), [])
  {
    hide Written;
    assert indices[..i + n] == indices[..i] + indices[i..i + n];
    assert values + seq(n, _ => v) + [] == values + seq(n, _ => v);
  }

  /** `encode_rle_bit_packed` for widths 1 to 32: stretches of at least eight equal values, after
      aligning what is pending, become repeated runs; the rest is bit-packed. */
  method Encode(indices: seq<nat>, bw: nat) returns (out: seq<Byte>, ghost runs: seq<Run>)
    requires 1 <= bw <= 32 && Fit(indices, bw) && |indices| < 0x4000_0000_0000_0000
    ensures out == Serialised(runs, bw) && AllWritable(runs, bw) && indices <= AllValues(runs, bw)
    ensures Shapes(runs) == Plan(indices, 0, 0)
  {
    hide Written, Fit, Mask, Progress, Serialised, AllValues, AllWritable, Stretch, Shapes, Planned, Plan, Borrow;
    out, runs := [], [];
    NothingPlanned(indices);
    ghost var values: seq<nat> := [];
    var pending: seq<nat> := [];
    Start(indices, bw);
    var i := 0;
    while i < |indices|
      invariant i <= |indices| && |pending| <= i && Progress(indices, i, bw, out, runs, values, pending)
      invariant Planned(indices, i, |pending|, runs)
      decreases |indices| - i
    {
      var v := indices[i];
      var j := RunEnd(indices, i);
      PlanNext(indices, i, |pending|, runs);
      var runLen := j - i;
      var borrow := Borrow(|pending|);
      if runLen >= 8 + borrow {
        ghost var before, joined := runs, |pending|;
        out, runs, values := EmitStretch(indices, i, j, bw, out, runs, values, pending, v, borrow, runLen - borrow);
        PlanRepeated(indices, i, joined, before, runs);
        pending := [];
      } else {
        Borrowed(indices, i, j, bw, out, runs, values, pending, runLen);
        pending := pending + seq(runLen, _ => v);
      }
      i := j;
    }
    ghost var before := runs;
    out, runs := FlushLast(indices, bw, out, runs, values, pending);
    PlanDone(indices, |pending|, before, runs);
  }

  /** The runs written so far are the plan's, up to what `i` and the pending values leave to do. */
  ghost predicate Planned(indices: seq<nat>, i: nat, pending: nat, runs: seq<Run>) {
    Shapes(runs) + Plan(indices, i, pending) == Plan(indices, 0, 0)
  }

  lemma NothingPlanned(indices: seq<nat>)
    ensures Planned(indices, 0, 0, [])
  {
    hide Plan;
    NoShapes();
  }

  /** A stretch that joins the pending values changes nothing that is written. */
  lemma PlanNext(indices: seq<nat>, i: nat, pending: nat, runs: seq<Run>)
    requires i < |indices| && Planned(indices, i, pending, runs)
    ensures var n, borrow := Stretch(indices, i), Borrow(pending);
            n < 8 + borrow ==> Planned(indices, i + n, pending + n, runs)
  {
    hide Plan, Stretch, Shapes;
    PlanUnfold(indices, i, pending);
  }

  /** A stretch that is repeated adds its runs. */
  lemma PlanRepeated(indices: seq<nat>, i: nat, pending: nat, before: seq<Run>, after: seq<Run>)
    requires i < |indices| && Planned(indices, i, pending, before)
    requires var n, borrow := Stretch(indices, i), Borrow(pending);
             && n >= 8 + borrow
             && Shapes(after)
             == Shapes(before) + (if pending + borrow > 0 then [PackedGroups((pending + borrow) / 8)] else [])
                + [Repeated(n - borrow, indices[i])]
    ensures Planned(indices, i + Stretch(indices, i), 0, after)
  {
    hide Plan, Stretch, Shapes;
    PlanUnfold(indices, i, pending);
    var n, borrow := Stretch(indices, i), Borrow(pending);
    PlanStep(Shapes(before), if pending + borrow > 0 then [PackedGroups((pending + borrow) / 8)] else [],
      Repeated(n - borrow, indices[i]), Plan(indices, i + n, 0));
  }

  lemma PlanDone(indices: seq<nat>, pending: nat, before: seq<Run>, after: seq<Run>)
    requires Planned(indices, |indices|, pending, before)
    requires Shapes(after) == Shapes(before) + if pending > 0 then [PackedGroups(CeilDiv8(pending))] else []
    ensures Shapes(after) == Plan(indices, 0, 0)
  {
    hide Plan, Shapes;
    PlanUnfold(indices, |indices|, pending);
  }

  /** `borrow` values of the stretch fill up the last group; the pending groups are written, then the
      rest of the stretch as one repeated run. */
  method EmitStretch(ghost indices: seq<nat>, ghost i: nat, ghost j: nat, bw: nat, out0: seq<Byte>, ghost runs0: seq<Run>,
                     ghost values0: seq<nat>, pending: seq<nat>, v: nat, borrow: nat, residual: nat)
    returns (out: seq<Byte>, ghost runs: seq<Run>, ghost values: seq<nat>)
    requires Progress(indices, i, bw, out0, runs0, values0, pending) && Fit(indices, bw)
    requires i < j <= |indices| < 0x4000_0000_0000_0000 && j - i == borrow + residual && v == indices[i]
    requires indices[i..j] == seq(j - i, _ => indices[i]) && (|pending| + borrow) % 8 == 0 && |pending| <= i
    ensures Progress(indices, j, bw, out, runs, values, [])
    ensures Shapes(runs)
         == Shapes(runs0) + (if |pending| + borrow > 0 then [PackedGroups((|pending| + borrow) / 8)] else []) + [Repeated(residual, v)]
  {
    hide Written, Fit, Mask, Progress, Shapes;
    Borrowed(indices, i, j, bw, out0, runs0, values0, pending, borrow);
    out, runs, values := Flush(indices, i + borrow, bw, out0, runs0, values0, pending + seq(borrow, _ => v));
    FitAt(indices, bw, i);
    out, runs := WriteRepeat(out, residual, v, bw, runs, values);
    RestOfStretch(indices, i, j, borrow);
    Flushed(indices, i + borrow, residual, bw, out, runs, values, v);
    values := values + seq(residual, _ => v);
  }

  lemma RestOfStretch(indices: seq<nat>, i: nat, j: nat, n: nat)
    requires i < j <= |indices| && indices[i..j] == seq(j - i, _ => indices[i]) && n <= j - i
    ensures indices[i + n..j] == seq(j - i - n, _ => indices[i])
  {
    var a, b := indices[i + n..j], seq(j - i - n, _ => indices[i]);
    forall k | 0 <= k < |a|
      ensures a[k] == b[k]
    {
      assert a[k] == indices[i..j][n + k];
    }
  }

  lemma NoShapes()
    ensures Shapes([]) == []
    ensures forall p: seq<Shape> :: [] + p == p
  {
  }

  lemma PlanStep(before: seq<Shape>, packed: seq<Shape>, repeated: Shape, rest: seq<Shape>)
    ensures before + packed + [repeated] + rest == before + (packed + [repeated] + rest)
  {
  }

  /** `if !pending.is_empty()`, with whole groups pending. */
  method Flush(ghost indices: seq<nat>, ghost i: nat, bw: nat, out0: seq<Byte>, ghost runs0: seq<Run>, ghost values0: seq<nat>,
               pending: seq<nat>)
    returns (out: seq<Byte>, ghost runs: seq<Run>, ghost values: seq<nat>)
    requires Progress(indices, i, bw, out0, runs0, values0, pending)
    requires |pending| % 8 == 0 && |pending| < 0x1_0000_0000_0000_0000
    ensures i <= |indices| && values == indices[..i] && Written(out, runs, values, bw)
    ensures Shapes(runs) == Shapes(runs0) + if |pending| > 0 then [PackedGroups(|pending| / 8)] else []
  {
    hide Written, Fit, Mask, Shapes;
    out, runs, values := out0, runs0, values0 + pending;
    if |pending| > 0 {
      out, runs := WritePacked(out, pending, bw, runs0, values0);
    } else {
      assert values0 + pending == values0;
    }
  }

  /** The last run is padded with zeros to a whole group, which the reader never reaches. */
  method FlushLast(ghost indices: seq<nat>, bw: nat, out0: seq<Byte>, ghost runs0: seq<Run>, ghost values0: seq<nat>, pending: seq<nat>)
    returns (out: seq<Byte>, ghost runs: seq<Run>)
    requires Progress(indices, |indices|, bw, out0, runs0, values0, pending) && |pending| < 0x4000_0000_0000_0000
    ensures out == Serialised(runs, bw) && AllWritable(runs, bw) && indices <= AllValues(runs, bw)
    ensures Shapes(runs) == Shapes(runs0) + if |pending| > 0 then [PackedGroups(CeilDiv8(|pending|))] else []
  {
    hide Fit, Mask, Serialised, AllValues, AllWritable, Shapes;
    out, runs := out0, runs0;
    assert indices[..|indices|] == indices;
    if |pending| > 0 {
      var groups := CeilDiv8(|pending|);
      var padding := seq(8 * groups - |pending|, _ => 0);
      FitZeros(8 * groups - |pending|, bw);
      FitAppend(pending, padding, bw);
      out, runs := WritePacked(out, pending + padding, bw, runs0, values0);
      assert values0 + (pending + padding) == indices + padding;
    } else {
      assert values0 + pending == values0;
    }
  }

  lemma FitZeros(n: nat, bw: nat)
    ensures Fit(seq(n, _ => 0), bw)
  {
    hide Mask, Fit;
    FitCopies(0, n, bw);
  }

  /** What is written reads back, alone or behind anything. */
  lemma EncodedStreamReads(pre: seq<Byte>, out: seq<Byte>, runs: seq<Run>, indices: seq<nat>, bw: nat)
    requires out == Serialised(runs, bw) && AllWritable(runs, bw) && indices <= AllValues(runs, bw)
    ensures IndexStream(pre + out, |pre|, bw, |indices|) == Ok(indices)
  {
    hide Serialised, AllValues, AllWritable, IndexStream;
    StreamRoundTrip(pre, runs, bw, |indices|);
    assert AllValues(runs, bw)[..|indices|] == indices;
  }

  /** `encode_rle_bit_packed`, whole: nothing for no indices or widths above 32, one run of zeros at
      width 0. */
  method EncodeRleBitPacked(indices: seq<nat>, bw: nat) returns (out: seq<Byte>)
    requires (bw <= 32 ==> Fit(indices, bw)) && |indices| < 0x4000_0000_0000_0000
    ensures bw > 32 ==> out == []
    ensures bw <= 32 ==> PageIndices([bw] + out, |indices|) == Ok(indices)
    ensures 0 < bw <= 32 ==> IndexStream(out, 0, bw, |indices|) == Ok(indices)
    ensures 0 < bw <= 32 ==> exists runs :: out == Serialised(runs, bw) && Shapes(runs) == Plan(indices, 0, 0)
    ensures bw == 0 && indices != [] ==> out == LebBytes(2 * |indices|)
  {
    hide IndexStream, Fit;
    out := [];
    NoIndices(out, bw);
    if |indices| == 0 {
      NoShapes();
      PlanUnfold(indices, 0, 0);
      assert out == Serialised([], bw) && Shapes([]) == Plan(indices, 0, 0);
      return;
    }
    if bw == 0 {
      out := WriteUvarint(out, 2 * |indices|);
      AllZero(indices);
      return;
    }
    if bw > 32 {
      return;
    }
    ghost var runs;
    out, runs := Encode(indices, bw);
    EncodedStreamReads([], out, runs, indices, bw);
    assert [] + out == out && ([bw] + out)[1..] == out;
  }

  lemma NoIndices(buf: seq<Byte>, bw: nat)
    ensures IndexStream(buf, 0, bw, 0) == Ok([])
  {
  }

  lemma {:induction false} AllZero(indices: seq<nat>)
    requires Fit(indices, 0)
    ensures indices == seq(|indices|, _ => 0)
  {
    if indices != [] {
      AllZero(indices[1..]);
      assert indices == [indices[0]] + indices[1..];
    }
  }

  // ----- the reader of `rle.rs` -----

  /** Where value `i` starts in its first byte. */
  function Offset(i: nat, bw: nat): nat {
    i * bw % 8
  }

  /** The windows of the first `m` values of a packed run fit the reader's 64-bit accumulator: none
      needs a ninth byte, whose shift by 64 overflows. */
  predicate WindowsStay(m: nat, bw: nat) {
    forall i: nat :: i < m ==> Offset(i, bw) + bw <= 64
  }

  /** Widths at which that holds however long the run is. */
  predicate WindowsFit(bw: nat) {
    bw <= 58 || bw == 60 || bw == 64
  }

  /** The condition in closed form: at the other widths, only for one value, or two at width 59. */
  lemma WindowsFitExactly(m: nat, bw: nat)
    requires bw <= 64
    ensures WindowsStay(m, bw) <==> WindowsFit(bw) || m <= if bw == 59 then 2 else 1
  {
    if WindowsFit(bw) {
      forall i: nat | i < m
        ensures Offset(i, bw) + bw <= 64
      {
        if bw == 58 || bw == 60 || bw == 64 {
          EvenOffset(i, bw);
        }
      }
    } else {
      assert Offset(2, 59) == 6 && Offset(1, 61) == 5 && Offset(1, 62) == 6 && Offset(1, 63) == 7;
      assert Offset(0, bw) == 0 && Offset(1, 59) == 3;
    }
  }

  lemma EvenOffset(i: nat, bw: nat)
    requires bw == 58 || bw == 60 || bw == 64
    ensures Offset(i, bw) + bw <= 64
  {
    if bw == 58 {
      EvenRemainder(i * 58, 29 * i);
    } else if bw == 60 {
      FourRemainder(i * 60, 15 * i);
    } else {
      EightRemainder(i * 64, 8 * i);
    }
  }

  lemma EvenRemainder(x: nat, q: nat)
    requires x == 2 * q
    ensures x % 8 <= 6
  {
  }

  lemma FourRemainder(x: nat, q: nat)
    requires x == 4 * q
    ensures x % 8 <= 4
  {
  }

  lemma EightRemainder(x: nat, q: nat)
    requires x == 8 * q
    ensures x % 8 == 0
  {
  }

  /** One value through a 64-bit window, or the overflow of its ninth byte's shift. */
  method ReadWideWindow(chunk: seq<Byte>, bitOffset: nat, bw: nat) returns (overflow: bool, v: nat)
    requires bw <= 64 && bitOffset + bw <= 8 * |chunk|
    ensures overflow <==> bitOffset % 8 + bw > 64
    ensures !overflow ==> v == BitField(chunk, bitOffset, bw)
  {
    hide BitField, Or, Shl, And, Shr, Mask;
    var byteOffset, bitInByte := bitOffset / 8, bitOffset % 8;
    var bytesNeeded := CeilDiv8(bitInByte + bw);
    var acc := 0;
    EmptyField(chunk, 8 * byteOffset);
    for j := 0 to bytesNeeded
      invariant j <= 8 && acc == BitField(chunk, 8 * byteOffset, 8 * j)
    {
      if j * 8 >= 64 {
        return true, 0;
      }
      PushByte(chunk, 8 * byteOffset, 8 * j, byteOffset + j, 64);
      acc := Or(acc, Shl(chunk[byteOffset + j], j * 8, 64));
    }
    WindowField(chunk, 8 * byteOffset, 8 * bytesNeeded, bitInByte, bw);
    return false, And(Shr(acc, bitInByte), Mask(bw));
  }

  method ReadPackedValues(chunk: seq<Byte>, n: nat, bw: nat, out0: seq<nat>) returns (overflow: bool, out: seq<nat>)
    requires 1 <= bw <= 64 && n * bw <= 8 * |chunk|
    ensures overflow <==> !WindowsStay(n, bw)
    ensures !overflow ==> out == out0 + Unpacked(chunk, n, bw)
  {
    hide BitField, Fields;
    out := out0;
    for i := 0 to n
      invariant WindowsStay(i, bw)
      invariant out + Fields(chunk, i * bw, n - i, bw) == out0 + Unpacked(chunk, n, bw)
    {
      assert Offset(i, bw) == i * bw % 8;
      FieldsUnfold(chunk, i * bw, n - i, bw);
      MulInterval(i, n, bw);
      var v;
      overflow, v := ReadWideWindow(chunk, i * bw, bw);
      if overflow {
        return;
      }
      out := out + [v];
    }
    FieldsUnfold(chunk, n * bw, 0, bw);
    overflow := false;
  }

  /** What the stream stands for. */
  function Decoded(bytes: seq<Byte>, bw: nat, n: nat): Result<seq<nat>> {
    if bw > 64 then Err(BitWidthOutOfRange(bw))
    else if n == 0 then Ok([])
    else if bw == 0 then Ok(seq(n, _ => 0))
    else IndexStream(bytes, 0, bw, n)
  }

  /** Every packed value that is read, up to the `n`-th or the first run that cannot be read, has a
      window of at most eight bytes. */
  predicate StreamStays(buf: seq<Byte>, pos: nat, bw: nat, n: nat)
    requires pos <= |buf|
    decreases |buf| - pos
  {
    n > 0 && ReadRun(buf, pos, bw).Ok? ==>
      var (run, next) := ReadRun(buf, pos, bw).value;
      var m := Min(n, RunLen(run));
      (run.Packed? ==> WindowsStay(m, bw)) && StreamStays(buf, next, bw, n - m)
  }

  datatype Reading =
    | Read(result: Result<seq<nat>>)
    | ShiftOverflow

  /** `decode_rle_bit_packed`: what the stream stands for, if and only if every window stays within
      the accumulator; otherwise the shift overflows. */
  method DecodeRleBitPacked(bytes: seq<Byte>, bw: nat, n: nat) returns (r: Reading)
    ensures r == if 0 < bw <= 64 && !StreamStays(bytes, 0, bw, n) then ShiftOverflow else Read(Decoded(bytes, bw, n))
  {
    hide IndexStream, ReadRun, RunPrefix, WindowsStay;
    if bw > 64 {
      return Read(Err(BitWidthOutOfRange(bw)));
    }
    if n == 0 {
      return Read(Ok([]));
    }
    if bw == 0 {
      return Read(Ok(seq(n, _ => 0)));
    }
    var out: seq<nat> := [];
    var cur := new Cursor(bytes);
    ghost var whole := IndexStream(bytes, 0, bw, n);
    PrependNothing(whole);
    while |out| < n
      invariant cur.Valid() && fresh(cur) && cur.buf == bytes && |out| <= n
      invariant whole == Prepend(out, IndexStream(bytes, cur.pos, bw, n - |out|))
      invariant StreamStays(bytes, 0, bw, n) == StreamStays(bytes, cur.pos, bw, n - |out|)
      decreases |bytes| - cur.pos
    {
      IndexStep(bytes, cur.pos, bw, n - |out|, out, whole);
      ghost var start := cur.pos;
      var run := ReadRunFrom(cur, bw, 64);
      if run.Err? {
        return Read(Err(run.error));
      }
      var toEmit := Min(n - |out|, RunLen(run.value));
      if run.value.Packed? {
        PackedChunkSize(bytes, start, bw);
        RunBytes(toEmit, run.value.groups, bw);
        PackedPrefix(run.value, toEmit, bw);
        var overflow;
        overflow, out := ReadPackedValues(run.value.chunk, toEmit, bw, out);
        if overflow {
          return ShiftOverflow;
        }
      } else {
        RepeatedPrefix(run.value, toEmit, bw);
        out := out + seq(toEmit, _ => run.value.index);
      }
    }
    IndexDone(bytes, cur.pos, bw);
    assert out + [] == out;
    return Read(Ok(out));
  }

  /** At widths whose windows always fit, in particular all index and level widths, no stream overflows. */
  lemma {:induction false} StaysAtFittingWidths(buf: seq<Byte>, pos: nat, bw: nat, n: nat)
    requires pos <= |buf| && WindowsFit(bw)
    ensures StreamStays(buf, pos, bw, n)
    decreases |buf| - pos
  {
    hide ReadRun, WindowsStay;
    if n > 0 && ReadRun(buf, pos, bw).Ok? {
      var (run, next) := ReadRun(buf, pos, bw).value;
      var m := Min(n, RunLen(run));
      WindowsFitExactly(m, bw);
      StaysAtFittingWidths(buf, next, bw, n - m);
    }
  }

  /** One group of eight 63-bit values: the stream stands for two values, but the second one starts in
      bit 7 of its first byte and ends in a ninth; the first one alone is read. */
  lemma SecondWideValueOverflows(chunk: seq<Byte>)
    requires |chunk| == 63
    ensures Decoded([3] + chunk, 63, 2) == Ok(Unpacked(chunk, 2, 63)) && !StreamStays([3] + chunk, 0, 63, 2)
    ensures Decoded([3] + chunk, 63, 1) == Ok(Unpacked(chunk, 1, 63)) && StreamStays([3] + chunk, 0, 63, 1)
  {
    hide ReadRun, Unpacked, WindowsStay;
    var buf, run := [3] + chunk, Packed(1, chunk);
    OneGroup(chunk, 63);
    WindowsFitExactly(2, 63);
    WindowsFitExactly(1, 63);
    PackedPrefix(run, 2, 63);
    PackedPrefix(run, 1, 63);
    assert RunLen(run) == 8 && IndexStream(buf, 64, 63, 0) == Ok([]);
    assert Unpacked(chunk, 2, 63) + [] == Unpacked(chunk, 2, 63) && Unpacked(chunk, 1, 63) + [] == Unpacked(chunk, 1, 63);
  }

  /** A stream of one packed group. */
  lemma OneGroup(chunk: seq<Byte>, bw: nat)
    requires |chunk| == bw
    ensures ReadRun([3] + chunk, 0, bw) == Ok((Packed(1, chunk), 1 + bw))
  {
    hide Leb128, Low, LeNat;
    var buf := [3] + chunk;
    LebUnfold(buf, 0, 10);
    LowFitsByte(3);
    assert UvarintAt(buf, 0) == Ok((3, 1));
    hide UvarintAt;
    assert CeilDiv8(1 * 8 * bw) == bw;
    assert buf[1..1 + bw] == chunk;
  }

  lemma PackedPrefix(run: Run, m: nat, bw: nat)
    requires run.Packed?
    ensures RunPrefix(run, m, bw) == Unpacked(run.chunk, m, bw)
  {
  }

  lemma RepeatedPrefix(run: Run, m: nat, bw: nat)
    requires run.Repeat?
    ensures RunPrefix(run, m, bw) == seq(m, _ => run.index)
  {
  }

  /** The writer's stream through both readers of the repository: `rle.rs` and, behind its width byte,
      the dictionary page decoder. */
  lemma BothReadersAgree(bytes: seq<Byte>, bw: nat, n: nat)
    requires bw <= 32
    ensures Decoded(bytes, bw, n) == PageIndices([bw] + bytes, n)
  {
    hide IndexStream;
    assert ([bw] + bytes)[1..] == bytes;
  }

  /** At every width up to 64 a list of written runs stands for its first `n` values; wider streams are
      refused. */
  lemma DecodedRoundTrip(runs: seq<Run>, bw: nat, n: nat)
    requires AllWritable(runs, bw) && n <= |AllValues(runs, bw)|
    ensures 1 <= bw <= 64 ==> Decoded(Serialised(runs, bw), bw, n) == Ok(AllValues(runs, bw)[..n])
    ensures bw > 64 ==> Decoded(Serialised(runs, bw), bw, n) == Err(BitWidthOutOfRange(bw))
  {
    hide IndexStream, Serialised, AllValues, AllWritable;
    StreamRoundTrip([], runs, bw, n);
    assert [] + Serialised(runs, bw) == Serialised(runs, bw);
    assert n == 0 ==> AllValues(runs, bw)[..n] == [];
  }
}
