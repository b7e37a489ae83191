/** What a DELTA_BINARY_PACKED stream means: a first value and a list of increments, one per further
    value, each the block's minimum delta plus a packed delta; the values are the running sums in
    two's complement. `width` is 32 or 64. */
module DeltaStream {
  import opened Bits
  import opened Wire

  const I32_MODULUS: int := 0x1_0000_0000
  const I64_MODULUS: int := 0x1_0000_0000_0000_0000
  const I128_MODULUS: int := 0x1_0000_0000_0000_0000_0000_0000_0000_0000

  /** The two's complement value of `v` in a register of `modulus` states. */
  function Wrap(v: int, modulus: int): int
    requires modulus > 0 && modulus % 2 == 0
  {
    (v + modulus / 2) % modulus - modulus / 2
  }

  function ValueModulus(width: nat): (m: int)
    ensures m > 0 && m % 2 == 0
  {
    if width == 32 then I32_MODULUS else I64_MODULUS
  }

  // ----- the stream -----

  /** `minDelta` added to every packed delta. */
  function Shifted(minDelta: int, deltas: seq<nat>): (r: seq<int>)
    ensures |r| == |deltas|
  {
    if deltas == [] then [] else [minDelta + deltas[0]] + Shifted(minDelta, deltas[1..])
  }

  /** The width bytes in front of a block's bodies. */
  function WidthsAt(buf: seq<Byte>, pos: nat, minis: nat): (r: Result<seq<Byte>>)
    requires pos <= |buf|
    ensures r.Ok? ==> pos + minis <= |buf| && |r.value| == minis
  {
    if |buf| - pos < minis then Err(UnexpectedEof(1, 0)) else Ok(buf[pos..pos + minis])
  }

  /** `mini_block_size * bit_width / 8`. */
  function BodyBytes(mini: nat, bw: nat): nat {
    mini * bw / 8
  }

  /** The body is a whole number of bytes. Where it is not, the body taken is too short for its values
      and the unpacker refuses it (the vector paths by a check, the scalar ones by a failed index). */
  predicate WholeBody(mini: nat, bw: nat) {
    mini * bw % 8 == 0
  }

  lemma WholeBodies(mini: nat, bw: nat)
    requires mini % 8 == 0
    ensures WholeBody(mini, bw)
  {
    assert mini * bw == 8 * (mini / 8 * bw);
  }

  /** The bodies of one block: only those that still hold wanted deltas are there to be consumed. */
  function MiniBlocks(buf: seq<Byte>, pos: nat, widths: seq<Byte>, mini: nat, minDelta: int, width: nat, n: nat):
    (r: Result<(seq<int>, nat)>)
    requires pos <= |buf|
    ensures r.Ok? ==> |r.value.0| <= n && pos <= r.value.1 <= |buf|
    decreases |widths|
  {
    if widths == [] || n == 0 then Ok(([], pos))
    else if width == 64 && widths[0] > 64 then Err(Decompress)
    else
      var size := BodyBytes(mini, widths[0]);
      var chunk :- TakeAt(buf, pos, size);
      if width == 32 && widths[0] > 32 then Err(BitWidthOutOfRange(widths[0]))
      else if !WholeBody(mini, widths[0]) then Err(Decompress)
      else
        var here := Shifted(minDelta, Unpacked(chunk, Min(n, mini), widths[0]));
        var (more, end) :- MiniBlocks(buf, pos + size, widths[1..], mini, minDelta, width, n - |here|);
        Ok((here + more, end))
  }

  /** `n` increments from consecutive blocks. */
  function Increments(buf: seq<Byte>, pos: nat, mini: nat, minis: nat, width: nat, n: nat): (r: Result<(seq<int>, nat)>)
    requires pos <= |buf|
    ensures r.Ok? ==> |r.value.0| == n && pos <= r.value.1 <= |buf|
    decreases |buf| - pos
  {
    if n == 0 then Ok(([], pos))
    else
      var (minDelta, p) :- ZigzagAt(buf, pos, 64);
      if minis > 64 then Err(Decompress)
      else
        var widths :- WidthsAt(buf, p, minis);
        var (here, q) :- MiniBlocks(buf, p + minis, widths, mini, minDelta, width, n);
        var (more, end) :- Increments(buf, q, mini, minis, width, n - |here|);
        Ok((here + more, end))
  }

  datatype Header = Header(mini: nat, minis: nat, count: nat, first: int)

  /** The header; the block geometry is checked only when there are values. */
  function HeaderAt(buf: seq<Byte>, pos: nat, width: nat): (r: Result<(Header, nat)>)
    requires pos <= |buf|
    ensures r.Ok? ==> pos < r.value.1 <= |buf|
  {
    hide UvarintAt, ZigzagAt;
    var (blockSize, p) :- UvarintAt(buf, pos);
    var (minis, q) :- UvarintAt(buf, p);
    var (count, s) :- UvarintAt(buf, q);
    var (first, e) :- ZigzagAt(buf, s, width);
    if count == 0 then Ok((Header(0, 0, 0, first), e))
    else if minis == 0 || blockSize % minis != 0 then Err(Decompress)
    else Ok((Header(blockSize / minis, minis, count, first), e))
  }

  /** The running sums after `acc`, as `width`-bit values. */
  function Running(acc: int, incs: seq<int>, width: nat): (r: seq<int>)
    ensures |r| == |incs|
    decreases |incs|
  {
    if incs == [] then []
    else [Wrap(acc + incs[0], ValueModulus(width))] + Running(acc + incs[0], incs[1..], width)
  }

  function Total(incs: seq<int>): int {
    if incs == [] then 0 else incs[0] + Total(incs[1..])
  }

  datatype Stream = Stream(header: Header, incs: seq<int>, end: nat)

  /** The stream at `pos`: its header, one increment per value after the first, and the position just
      after the last body it needed. */
  function StreamAt(buf: seq<Byte>, pos: nat, width: nat): (r: Result<Stream>)
    requires pos <= |buf|
    ensures r.Ok? ==> pos < r.value.end <= |buf|
    ensures r.Ok? ==> |r.value.incs| == if r.value.header.count == 0 then 0 else r.value.header.count - 1
  {
    var (h, p) :- HeaderAt(buf, pos, width);
    if h.count == 0 then Ok(Stream(h, [], p))
    else
      var (incs, end) :- Increments(buf, p, h.mini, h.minis, width, h.count - 1);
      Ok(Stream(h, incs, end))
  }

  function Values(s: Stream, width: nat): seq<int> {
    if s.header.count == 0 then [] else [s.header.first] + Running(s.header.first, s.incs, width)
  }

  /** What the decoder returns, and where it leaves the cursor. */
  function DeltaAt(buf: seq<Byte>, pos: nat, width: nat): (r: Result<(seq<int>, nat)>)
    requires pos <= |buf|
    ensures r.Ok? ==> pos < r.value.1 <= |buf|
  {
    var s :- StreamAt(buf, pos, width);
    Ok((Values(s, width), s.end))
  }

  // ----- meaning: out[k] is first + the first k increments, modulo 2^width -----

  lemma {:induction false} RunningAt(acc: int, incs: seq<int>, width: nat, k: nat)
    requires k < |incs|
    ensures Running(acc, incs, width)[k] == Wrap(acc + Total(incs[..k + 1]), ValueModulus(width))
    decreases k
  {
    hide Wrap;
    if k == 0 {
      assert incs[..1] == [incs[0]] && incs[..1][1..] == [];
    } else {
      RunningAt(acc + incs[0], incs[1..], width, k - 1);
      assert incs[..k + 1][1..] == incs[1..][..k];
    }
  }

  predicate Congruent(a: int, b: int, width: nat) {
    if width == 32 then a % I32_MODULUS == b % I32_MODULUS else a % I64_MODULUS == b % I64_MODULUS
  }

  predicate InRange(v: int, width: nat) {
    if width == 32 then -0x8000_0000 <= v < 0x8000_0000
    else -0x8000_0000_0000_0000 <= v < 0x8000_0000_0000_0000
  }

  lemma WrapCongruent(v: int, width: nat)
    requires width == 32 || width == 64
    ensures Congruent(Wrap(v, ValueModulus(width)), v, width) && InRange(Wrap(v, ValueModulus(width)), width)
  {
    if width == 32 {
      WrapCongruent32(v);
    } else {
      WrapCongruent64(v);
    }
  }

  lemma WrapCongruent32(v: int)
    ensures Wrap(v, I32_MODULUS) % I32_MODULUS == v % I32_MODULUS
    ensures -0x8000_0000 <= Wrap(v, I32_MODULUS) < 0x8000_0000
  {
  }

  lemma WrapCongruent64(v: int)
    ensures Wrap(v, I64_MODULUS) % I64_MODULUS == v % I64_MODULUS
    ensures -0x8000_0000_0000_0000 <= Wrap(v, I64_MODULUS) < 0x8000_0000_0000_0000
  {
  }

  /** A decoded stream has its `count` values; value `k` is in range and congruent modulo 2^width to
      the first value plus the first `k` increments. */
  lemma DeltaMeaning(buf: seq<Byte>, pos: nat, width: nat, k: nat)
    requires pos <= |buf| && (width == 32 || width == 64)
    requires StreamAt(buf, pos, width).Ok? && k < StreamAt(buf, pos, width).value.header.count
    ensures var s := StreamAt(buf, pos, width).value;
            && |Values(s, width)| == s.header.count
            && var v, sum := Values(s, width)[k], s.header.first + Total(s.incs[..k]);
            && (width == 32 ==> v % 0x1_0000_0000 == sum % 0x1_0000_0000 && -0x8000_0000 <= v < 0x8000_0000)
            && (width == 64 ==>
                  && v % 0x1_0000_0000_0000_0000 == sum % 0x1_0000_0000_0000_0000
                  && -0x8000_0000_0000_0000 <= v < 0x8000_0000_0000_0000)
  {
    hide StreamAt, Wrap, Running, Congruent, InRange;
    var s := StreamAt(buf, pos, width).value;
    if k > 0 {
      RunningAt(s.header.first, s.incs, width, k - 1);
      WrapCongruent(s.header.first + Total(s.incs[..k]), width);
    } else {
      assert s.incs[..0] == [];
      FirstRange(buf, pos, width);
      SameIsCongruent(s.header.first, width);
    }
    InNumbers(Values(s, width)[k], s.header.first + Total(s.incs[..k]), width);
  }

  lemma InNumbers(v: int, sum: int, width: nat)
    requires (width == 32 || width == 64) && Congruent(v, sum, width) && InRange(v, width)
    ensures width == 32 ==> v % 0x1_0000_0000 == sum % 0x1_0000_0000 && -0x8000_0000 <= v < 0x8000_0000
    ensures width == 64 ==>
              && v % 0x1_0000_0000_0000_0000 == sum % 0x1_0000_0000_0000_0000
              && -0x8000_0000_0000_0000 <= v < 0x8000_0000_0000_0000
  {
  }

  lemma SameIsCongruent(v: int, width: nat)
    ensures Congruent(v, v, width)
  {
  }

  // ----- wrapping accumulators -----

  function AccModulus(width: nat): (m: int)
    ensures m > 0 && m % 2 == 0
  {
    if width == 32 then I64_MODULUS else I128_MODULUS
  }

  /** Two wrapping additions on a wrapped accumulator, then a truncating cast. */
  lemma WrappedStep(acc: int, minDelta: int, delta: nat, width: nat)
    requires width == 32 || width == 64
    ensures var m := AccModulus(width);
            var next := Wrap(Wrap(Wrap(acc, m) + minDelta, m) + delta, m);
            && next == Wrap(acc + (minDelta + delta), m)
            && Wrap(next, ValueModulus(width)) == Wrap(acc + (minDelta + delta), ValueModulus(width))
  {
    hide Wrap;
    var m := AccModulus(width);
    WrapAdd(acc, minDelta, width);
    WrapAdd(acc + minDelta, delta, width);
    assert acc + minDelta + delta == acc + (minDelta + delta);
    WrapNarrow(acc + (minDelta + delta), width);
  }

  lemma WrapPeriod(x: int, k: int)
    ensures Wrap(x + I32_MODULUS * k, I32_MODULUS) == Wrap(x, I32_MODULUS)
    ensures Wrap(x + I64_MODULUS * k, I64_MODULUS) == Wrap(x, I64_MODULUS)
    ensures Wrap(x + I128_MODULUS * k, I128_MODULUS) == Wrap(x, I128_MODULUS)
  {
    ModPeriod(x + I32_MODULUS / 2, k, I32_MODULUS);
    ModPeriod(x + I64_MODULUS / 2, k, I64_MODULUS);
    ModPeriod(x + I128_MODULUS / 2, k, I128_MODULUS);
  }

  lemma ModPeriod(x: int, k: int, m: int)
    requires m > 0
    ensures (x + m * k) % m == x % m
  {
    var q, r := (x + m * k) / m, (x + m * k) % m;
    var d := q - x / m - k;
    assert r - x % m == m * -d by {
      assert m * (d + x / m + k) == m * d + m * (x / m) + m * k;
    }
    NoMultiple(r - x % m, m, -d);
  }

  lemma NoMultiple(e: int, m: int, d: int)
    requires m > 0 && -m < e < m && e == m * d
    ensures e == 0
  {
    MulAtLeast(m, d);
  }

  lemma MulAtLeast(m: int, d: int)
    requires m > 0
    ensures d >= 1 ==> m * d >= m
    ensures d <= -1 ==> m * d <= -m
  {
    if d >= 1 {
      assert m * (d - 1) >= 0;
    } else if d <= -1 {
      assert m * (-d - 1) >= 0;
    }
  }

  /** Wrapping subtracts a multiple of the modulus. */
  lemma WrapQuotient(x: int, m: int) returns (q: int)
    requires m > 0 && m % 2 == 0
    ensures Wrap(x, m) == x + m * q
  {
    var t := (x + m / 2) / m;
    q := -t;
    assert m * q == -(m * t);
  }

  lemma WrapAdd(x: int, d: int, width: nat)
    requires width == 32 || width == 64
    ensures Wrap(Wrap(x, AccModulus(width)) + d, AccModulus(width)) == Wrap(x + d, AccModulus(width))
  {
    hide Wrap;
    var q := WrapQuotient(x, AccModulus(width));
    WrapPeriod(x + d, q);
  }

  lemma WrapNarrow(x: int, width: nat)
    requires width == 32 || width == 64
    ensures Wrap(Wrap(x, AccModulus(width)), ValueModulus(width)) == Wrap(x, ValueModulus(width))
  {
    hide Wrap;
    var q := WrapQuotient(x, AccModulus(width));
    if width == 32 {
      assert I64_MODULUS * q == I32_MODULUS * (I32_MODULUS * q);
      WrapPeriod(x, I32_MODULUS * q);
    } else {
      assert I128_MODULUS * q == I64_MODULUS * (I64_MODULUS * q);
      WrapPeriod(x, I64_MODULUS * q);
    }
  }

  lemma {:induction false} RunningAppend(acc: int, a: seq<int>, b: seq<int>, width: nat)
    ensures Running(acc, a + b, width) == Running(acc, a, width) + Running(acc + Total(a), b, width)
    decreases |a|
  {
    hide Wrap;
    if a == [] {
      assert a + b == b;
    } else {
      assert (a + b)[1..] == a[1..] + b;
      RunningAppend(acc + a[0], a[1..], b, width);
    }
  }

  lemma {:induction false} TotalAppend(a: seq<int>, b: seq<int>)
    ensures Total(a + b) == Total(a) + Total(b)
    decreases |a|
  {
    if a == [] {
      assert a + b == b;
    } else {
      assert (a + b)[1..] == a[1..] + b;
      TotalAppend(a[1..], b);
    }
  }

  // ----- the 128-bit accumulator never wraps -----

  /** Every increment of a stream lies in `[-2^63, 2^63 + 2^64)`. */
  ghost predicate Bounded(incs: seq<int>) {
    forall k :: 0 <= k < |incs| ==> -0x8000_0000_0000_0000 <= incs[k] < 0x1_8000_0000_0000_0000
  }

  lemma {:induction false} ShiftedBounded(minDelta: int, deltas: seq<nat>)
    requires -0x8000_0000_0000_0000 <= minDelta < 0x8000_0000_0000_0000
    requires forall k :: 0 <= k < |deltas| ==> deltas[k] <= 0xFFFF_FFFF_FFFF_FFFF
    ensures Bounded(Shifted(minDelta, deltas))
  {
    if deltas != [] {
      ShiftedBounded(minDelta, deltas[1..]);
    }
  }

  lemma PackedBounded(p: seq<Byte>, n: nat, bw: nat)
    requires bw <= 64
    ensures forall k :: 0 <= k < n ==> Unpacked(p, n, bw)[k] <= 0xFFFF_FFFF_FFFF_FFFF
  {
    hide Mask, Fields;
    MaskValues();
    MaskMono(bw, 64);
    forall k | 0 <= k < n
      ensures Unpacked(p, n, bw)[k] <= 0xFFFF_FFFF_FFFF_FFFF
    {
      FieldsAt(p, 0, n, bw, k);
    }
  }

  lemma BoundedAppend(a: seq<int>, b: seq<int>)
    requires Bounded(a) && Bounded(b)
    ensures Bounded(a + b)
  {
  }

  lemma ZigzagRange(buf: seq<Byte>, pos: nat, width: nat)
    requires pos <= |buf| && (width == 32 || width == 64) && ZigzagAt(buf, pos, width).Ok?
    ensures InRange(ZigzagAt(buf, pos, width).value.0, width)
  {
    hide UvarintAt, Low, Mask;
    MaskValues();
    LowBound(UvarintAt(buf, pos).value.0, width);
  }

  lemma {:induction false} MiniBlocksBounded(buf: seq<Byte>, pos: nat, widths: seq<Byte>, mini: nat, minDelta: int, width: nat, n: nat)
    requires pos <= |buf| && (width == 32 || width == 64)
    requires -0x8000_0000_0000_0000 <= minDelta < 0x8000_0000_0000_0000
    requires MiniBlocks(buf, pos, widths, mini, minDelta, width, n).Ok?
    ensures Bounded(MiniBlocks(buf, pos, widths, mini, minDelta, width, n).value.0)
    decreases |widths|
  {
    hide Shifted, Bounded, Unpacked, BodyBytes;
    if widths == [] || n == 0 {
      NothingBounded();
    } else {
      var size := BodyBytes(mini, widths[0]);
      var deltas := Unpacked(TakeAt(buf, pos, size).value, Min(n, mini), widths[0]);
      PackedBounded(TakeAt(buf, pos, size).value, Min(n, mini), widths[0]);
      ShiftedBounded(minDelta, deltas);
      var rest := n - |Shifted(minDelta, deltas)|;
      MiniBlocksBounded(buf, pos + size, widths[1..], mini, minDelta, width, rest);
      BoundedAppend(Shifted(minDelta, deltas),
        MiniBlocks(buf, pos + size, widths[1..], mini, minDelta, width, rest).value.0);
    }
  }

  lemma NothingBounded()
    ensures Bounded([])
  {
  }

  lemma IncrementsBounded(buf: seq<Byte>, pos: nat, mini: nat, minis: nat, width: nat, n: nat)
    requires pos <= |buf| && (width == 32 || width == 64) && Increments(buf, pos, mini, minis, width, n).Ok?
    ensures Bounded(Increments(buf, pos, mini, minis, width, n).value.0)
    ensures forall j :: 0 <= j < n ==>
              -0x8000_0000_0000_0000 <= Increments(buf, pos, mini, minis, width, n).value.0[j] < 0x1_8000_0000_0000_0000
  {
    hide Increments;
    IncrementsAllBounded(buf, pos, mini, minis, width, n);
  }

  lemma {:induction false} IncrementsAllBounded(buf: seq<Byte>, pos: nat, mini: nat, minis: nat, width: nat, n: nat)
    requires pos <= |buf| && (width == 32 || width == 64) && Increments(buf, pos, mini, minis, width, n).Ok?
    ensures Bounded(Increments(buf, pos, mini, minis, width, n).value.0)
    decreases |buf| - pos
  {
    hide Bounded, MiniBlocks, ZigzagAt;
    if n == 0 {
      NothingBounded();
    } else {
      ZigzagRange(buf, pos, 64);
      var (minDelta, p) := ZigzagAt(buf, pos, 64).value;
      var widths := WidthsAt(buf, p, minis).value;
      MiniBlocksBounded(buf, p + minis, widths, mini, minDelta, width, n);
      var (here, q) := MiniBlocks(buf, p + minis, widths, mini, minDelta, width, n).value;
      IncrementsAllBounded(buf, q, mini, minis, width, n - |here|);
      BoundedAppend(here, Increments(buf, q, mini, minis, width, n - |here|).value.0);
    }
  }

  lemma {:induction false} TotalBound(incs: seq<int>)
    requires Bounded(incs)
    ensures -(|incs| * 0x1_8000_0000_0000_0000) <= Total(incs) <= |incs| * 0x1_8000_0000_0000_0000
  {
    if incs != [] {
      TotalBound(incs[1..]);
    }
  }

  /** For up to 2^62 values no partial sum of an i64 stream leaves the 128-bit accumulator. */
  lemma AccumulatorNeverWraps(buf: seq<Byte>, pos: nat, k: nat)
    requires pos <= |buf| && StreamAt(buf, pos, 64).Ok?
    requires k < StreamAt(buf, pos, 64).value.header.count <= 0x4000_0000_0000_0000
    ensures var s := StreamAt(buf, pos, 64).value;
            Wrap(s.header.first + Total(s.incs[..k]), I128_MODULUS) == s.header.first + Total(s.incs[..k])
  {
    hide HeaderAt, Increments, Bounded, Total;
    var (h, p) := HeaderAt(buf, pos, 64).value;
    var s := StreamAt(buf, pos, 64).value;
    IncrementsBounded(buf, p, h.mini, h.minis, 64, h.count - 1);
    PrefixBounded(s.incs, k);
    TotalBound(s.incs[..k]);
    FirstRange(buf, pos, 64);
    WrapFits(s.header.first, Total(s.incs[..k]), k);
  }

  lemma WrapFits(first: int, total: int, k: nat)
    requires k <= 0x4000_0000_0000_0000 && InRange(first, 64)
    requires -(k * 0x1_8000_0000_0000_0000) <= total <= k * 0x1_8000_0000_0000_0000
    ensures Wrap(first + total, I128_MODULUS) == first + total
  {
  }

  lemma PrefixBounded(incs: seq<int>, k: nat)
    requires Bounded(incs) && k <= |incs|
    ensures Bounded(incs[..k])
  {
  }

  lemma FirstRange(buf: seq<Byte>, pos: nat, width: nat)
    requires pos <= |buf| && (width == 32 || width == 64) && StreamAt(buf, pos, width).Ok?
    ensures InRange(StreamAt(buf, pos, width).value.header.first, width)
  {
    hide UvarintAt, ZigzagAt, Increments, InRange;
    var p := UvarintAt(buf, pos).value.1;
    var q := UvarintAt(buf, p).value.1;
    var s := UvarintAt(buf, q).value.1;
    ZigzagRange(buf, s, width);
  }
}
