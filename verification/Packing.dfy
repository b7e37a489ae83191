/** `pack_lsb_first`: values written `bw` bits each, least significant bit first, by OR-ing at most
    eight bits at a time into zeroed bytes; and that unpacking gives them back. */
module Packing {
  import opened Bits
  import opened Bitmaps

  /** The low `w` bits of a value, least significant first. */
  function ValueBits(v: nat, w: nat): (r: seq<nat>)
    ensures |r| == w
    decreases w, v
  {
    if w == 0 then [] else [v % 2] + ValueBits(v / 2, w - 1)
  }

  function AllBits(values: seq<nat>, bw: nat): (r: seq<nat>)
    ensures |r| == Span(|values|, bw)
    decreases |values|
  {
    if values == [] then [] else ValueBits(values[0], bw) + AllBits(values[1..], bw)
  }

  lemma {:induction false} ValueBitsAt(v: nat, w: nat, i: nat)
    requires i < w
    ensures ValueBits(v, w)[i] == Shr(v, i) % 2
    decreases i
  {
    if i > 0 {
      ValueBitsAt(v / 2, w - 1, i - 1);
    }
  }

  lemma {:induction false} ValueBitsSplit(v: nat, a: nat, b: nat)
    ensures ValueBits(v, a + b) == ValueBits(v, a) + ValueBits(Shr(v, a), b)
    decreases a
  {
    if a > 0 {
      ValueBitsSplit(v / 2, a - 1, b);
      assert a - 1 + b == a + b - 1;
    }
  }

  lemma {:induction false} AllBitsAppend(a: seq<nat>, b: seq<nat>, bw: nat)
    ensures AllBits(a + b, bw) == AllBits(a, bw) + AllBits(b, bw)
    decreases |a|
  {
    hide ValueBits, Span;
    if a == [] {
      assert a + b == b;
    } else {
      assert (a + b)[1..] == a[1..] + b;
      AllBitsAppend(a[1..], b, bw);
    }
  }

  lemma AllBitsOne(v: nat, bw: nat)
    ensures AllBits([v], bw) == ValueBits(v, bw)
  {
    hide ValueBits, Span;
    assert [v][1..] == [];
    assert ValueBits(v, bw) + [] == ValueBits(v, bw);
  }

  // ----- OR-ing a few bits into a byte -----

  lemma {:induction false} ShiftedBit(c: nat, s: nat, k: nat)
    ensures Shr(Up(c, s), k) % 2 == if k < s then 0 else Shr(c, k - s) % 2
    decreases s + k
  {
    if s > 0 && k > 0 {
      ShiftedBit(c, s - 1, k - 1);
      assert Up(c, s) / 2 == Up(c, s - 1);
    }
  }

  lemma {:induction false} LowBit(v: nat, w: nat, i: nat)
    ensures Shr(Low(v, w), i) % 2 == if i < w then Shr(v, i) % 2 else 0
    decreases w
  {
    if w == 0 {
      ShrOfZero(i);
    } else if i > 0 {
      LowBit(v / 2, w - 1, i - 1);
      assert Low(v, w) / 2 == Low(v / 2, w - 1);
    }
  }

  /** `out[byte] |= chunk << shift`. */
  lemma OrBitsIn(x: Byte, v: nat, take: nat, shift: nat, k: nat)
    requires shift + take <= 8 && k < 8
    ensures Or(x, Shl(Low(v, take), shift, 8)) < 256
    ensures Shr(Or(x, Shl(Low(v, take), shift, 8)), k) % 2
         == if shift <= k < shift + take && Shr(v, k - shift) % 2 == 1 then 1 else Shr(x, k) % 2
  {
    hide Shr, Up, Or, Mask, Shl, Low;
    var c := Low(v, take);
    LowBound(v, take);
    MaskByteValue();
    UpBound(c, take, shift);
    MaskMono(shift + take, 8);
    ShlFits(c, take, shift, 8);
    OrBound(x, Up(c, shift), 8);
    ShrOr(x, Up(c, shift), k);
    OrParity(Shr(x, k), Shr(Up(c, shift), k));
    ShiftedBit(c, shift, k);
    if k >= shift {
      LowBit(v, take, k - shift);
    }
  }

  /** The next `take` bits of a partly filled byte string. */
  lemma FillChunk(p: seq<Byte>, j: nat, shift: nat, take: nat, v: nat, done: seq<nat>)
    requires Filled(p, done) && |done| == 8 * j + shift && j < |p| && shift + take <= 8
    ensures Or(p[j], Shl(Low(v, take), shift, 8)) < 256
    ensures Filled(p[j := Or(p[j], Shl(Low(v, take), shift, 8))], done + ValueBits(v, take))
  {
    hide Shr, Or, Shl, Low, ValueBits, Filled;
    OrBitsIn(p[j], v, take, shift, 0);
    var q := p[j := Or(p[j], Shl(Low(v, take), shift, 8))];
    forall m | 0 <= m < 8 * |p|
      ensures Bit(q, m) == if |done| <= m < |done| + take then ValueBits(v, take)[m - |done|] else Bit(p, m)
    {
      if m / 8 == j {
        OrBitsIn(p[j], v, take, shift, m % 8);
        FilledBit(p, done, m);
        if |done| <= m < |done| + take {
          ValueBitsAt(v, take, m - |done|);
        }
      }
    }
    Refilled(p, q, done, ValueBits(v, take));
  }

  lemma FilledBit(p: seq<Byte>, done: seq<nat>, m: nat)
    requires Filled(p, done) && m < 8 * |p|
    ensures Bit(p, m) == if m < |done| then done[m] else 0
  {
    hide Bit;
    assert BitsOf(p)[m] == (done + Zeros(8 * |p| - |done|))[m];
  }

  lemma Refilled(p: seq<Byte>, q: seq<Byte>, done: seq<nat>, bits: seq<nat>)
    requires Filled(p, done) && |q| == |p| && |done| + |bits| <= 8 * |p|
    requires forall m :: 0 <= m < 8 * |p| ==> Bit(q, m) == if |done| <= m < |done| + |bits| then bits[m - |done|] else Bit(p, m)
    ensures Filled(q, done + bits)
  {
    hide Bit;
    forall m | 0 <= m < 8 * |p|
      ensures BitsOf(q)[m] == (done + bits + Zeros(8 * |p| - |done| - |bits|))[m]
    {
      FilledBit(p, done, m);
      assert BitsOf(q)[m] == Bit(q, m);
    }
  }

  // ----- one value, then all of them -----

  /** The inner loop: one value, in pieces that end at byte boundaries. */
  method PackValue(v: nat, bw: nat, byteIx0: nat, shift0: nat, ghost done: seq<nat>, out0: seq<Byte>) returns (out: seq<Byte>)
    requires shift0 < 8 && |done| == 8 * byteIx0 + shift0 && |done| + bw <= 8 * |out0| && Filled(out0, done)
    ensures |out| == |out0| && Filled(out, done + ValueBits(v, bw))
  {
    hide Filled, ValueBits, Or, Shl, Low, Shr;
    out := out0;
    var byteIx, shift, remaining, value := byteIx0, shift0, bw, v;
    NoBits(v, done);
    while remaining > 0
      invariant 0 <= remaining <= bw && |out| == |out0| && shift < 8
      invariant remaining > 0 ==> 8 * byteIx + shift == |done| + (bw - remaining)
      invariant value == Shr(v, bw - remaining)
      invariant Filled(out, done + ValueBits(v, bw - remaining))
    {
      var take := Min(8 - shift, remaining);
      ghost var written := bw - remaining;
      FillChunk(out, byteIx, shift, take, value, done + ValueBits(v, written));
      ValueBitsSplit(v, written, take);
      assert done + ValueBits(v, written) + ValueBits(value, take) == done + ValueBits(v, written + take);
      ShrAdd(v, written, take);
      out := out[byteIx := Or(out[byteIx], Shl(Low(value, take), shift, 8))];
      value := Shr(value, take);
      remaining := remaining - take;
      byteIx := byteIx + 1;
      shift := 0;
    }
  }

  lemma NoBits(v: nat, done: seq<nat>)
    ensures done + ValueBits(v, 0) == done && Shr(v, 0) == v
  {
  }

  /** `pack_lsb_first`. */
  method PackLsbFirst(out0: seq<Byte>, values: seq<nat>, bw: nat) returns (out: seq<Byte>)
    requires |values| % 8 == 0
    ensures |out| == |out0| + |values| / 8 * bw && Filled(out, BitsOf(out0) + AllBits(values, bw))
  {
    hide Filled, ValueBits, AllBits, BitsOf, Span;
    var bodyLen, bodyStart := |values| / 8 * bw, |out0|;
    ResizeZero(out0, bodyLen);
    out := out0 + seq(bodyLen, _ => 0);
    NoValues(BitsOf(out0), values, bw);
    for i := 0 to |values|
      invariant |out| == bodyStart + bodyLen && Filled(out, BitsOf(out0) + AllBits(values[..i], bw))
    {
      BitPosition(|values|, i, bw);
      NextValue(BitsOf(out0), values, i, bw);
      out := PackValue(values[i], bw, bodyStart + i * bw / 8, i * bw % 8, BitsOf(out0) + AllBits(values[..i], bw), out);
    }
    assert values[..|values|] == values;
  }

  lemma NoValues(base: seq<nat>, values: seq<nat>, bw: nat)
    ensures base + AllBits(values[..0], bw) == base
  {
  }

  lemma BitPosition(n: nat, i: nat, bw: nat)
    requires i < n && n % 8 == 0
    ensures Span(i, bw) == i * bw && i * bw + bw <= 8 * (n / 8 * bw)
  {
    SpanIsProduct(i, bw);
    MulInterval(i, n, bw);
    assert n * bw == 8 * (n / 8 * bw);
  }

  lemma NextValue(base: seq<nat>, values: seq<nat>, i: nat, bw: nat)
    requires i < |values|
    ensures base + AllBits(values[..i], bw) + ValueBits(values[i], bw) == base + AllBits(values[..i + 1], bw)
  {
    hide ValueBits, AllBits, Span;
    assert values[..i + 1] == values[..i] + [values[i]];
    AllBitsAppend(values[..i], [values[i]], bw);
    AllBitsOne(values[i], bw);
    assert base + AllBits(values[..i], bw) + ValueBits(values[i], bw)
        == base + (AllBits(values[..i], bw) + ValueBits(values[i], bw));
  }

  // ----- unpacking what was packed -----

  /** Bits `[s, s + |bits|)` of `p`. */
  ghost predicate HasBits(p: seq<Byte>, s: nat, bits: seq<nat>) {
    forall k :: 0 <= k < |bits| ==> bits[k] == Bit(p, s + k)
  }

  lemma {:induction false} FieldOfBits(p: seq<Byte>, s: nat, v: nat, w: nat)
    requires HasBits(p, s, ValueBits(v, w))
    ensures BitField(p, s, w) == Low(v, w)
    decreases w
  {
    hide Bit;
    if w > 0 {
      var bits := ValueBits(v, w);
      assert bits[0] == Bit(p, s + 0);
      HasBitsTail(p, s, bits, 1);
      assert bits[1..] == ValueBits(v / 2, w - 1);
      FieldOfBits(p, s + 1, v / 2, w - 1);
    }
  }

  lemma HasBitsTail(p: seq<Byte>, s: nat, bits: seq<nat>, n: nat)
    requires n <= |bits| && HasBits(p, s, bits)
    ensures HasBits(p, s, bits[..n]) && HasBits(p, s + n, bits[n..])
  {
    hide Bit;
    forall k | 0 <= k < |bits| - n
      ensures bits[n..][k] == Bit(p, s + n + k)
    {
      assert bits[n + k] == Bit(p, s + (n + k));
    }
  }

  /** Values that fit their width. */
  predicate Fit(values: seq<nat>, bw: nat) {
    values == [] || (values[0] <= Mask(bw) && Fit(values[1..], bw))
  }

  lemma {:induction false} FieldsOfBits(p: seq<Byte>, s: nat, values: seq<nat>, bw: nat)
    requires HasBits(p, s, AllBits(values, bw)) && Fit(values, bw)
    ensures Fields(p, s, |values|, bw) == values
    decreases |values|
  {
    hide BitField, HasBits, ValueBits, Mask;
    if values != [] {
      var bits := AllBits(values, bw);
      HasBitsTail(p, s, bits, bw);
      assert bits[..bw] == ValueBits(values[0], bw) && bits[bw..] == AllBits(values[1..], bw);
      FieldOfBits(p, s, values[0], bw);
      LowFits(values[0], bw);
      FieldsOfBits(p, s + bw, values[1..], bw);
      assert values == [values[0]] + values[1..];
    }
  }

  /** Packing, then unpacking. */
  lemma PackRoundTrip(out0: seq<Byte>, out: seq<Byte>, values: seq<nat>, bw: nat)
    requires |values| % 8 == 0 && |out| == |out0| + |values| / 8 * bw && Fit(values, bw)
    requires Filled(out, BitsOf(out0) + AllBits(values, bw))
    ensures out0 <= out && Unpacked(out[|out0|..], |values|, bw) == values
  {
    hide Fit, AllBits, Bit, BitField;
    var q := out[|out0|..];
    SpanIsProduct(|values|, bw);
    assert |values| * bw == 8 * (|values| / 8 * bw);
    assert |AllBits(values, bw)| == 8 * |q|;
    assert BitsOf(out) == BitsOf(out0) + AllBits(values, bw);
    assert out == out[..|out0|] + q;
    BitsConcat(out[..|out0|], q);
    assert BitsOf(out[..|out0|]) == BitsOf(out)[..8 * |out0|] == BitsOf(out0);
    BitsInjective(out[..|out0|], out0);
    assert BitsOf(q) == AllBits(values, bw);
    forall k | 0 <= k < |AllBits(values, bw)|
      ensures AllBits(values, bw)[k] == Bit(q, 0 + k)
    {
      assert BitsOf(q)[k] == Bit(q, k);
    }
    FieldsOfBits(q, 0, values, bw);
  }
}
