/** Packed bitmaps as sequences of bits, and what the byte operations on them do to the bits. */
module Bitmaps {
  import opened Bits

  /** All bits of a byte string, least significant bit of each byte first. */
  function BitsOf(p: seq<Byte>): (r: seq<nat>)
    ensures |r| == 8 * |p|
    ensures forall k :: 0 <= k < |r| ==> r[k] == Bit(p, k)
  {
    seq(8 * |p|, k requires k >= 0 => Bit(p, k))
  }

  function Zeros(n: nat): (r: seq<nat>)
    ensures |r| == n
  {
    seq(n, _ => 0)
  }

  function Ones(n: nat): (r: seq<nat>)
    ensures |r| == n
  {
    seq(n, _ => 1)
  }

  lemma BitsConcat(p: seq<Byte>, q: seq<Byte>)
    ensures BitsOf(p + q) == BitsOf(p) + BitsOf(q)
  {
    hide Shr;
    forall k | 0 <= k < 8 * |p + q|
      ensures Bit(p + q, k) == (BitsOf(p) + BitsOf(q))[k]
    {
      if k >= 8 * |p| {
        assert k / 8 - |p| == (k - 8 * |p|) / 8;
      }
    }
  }

  /** A byte string is determined by its bits. */
  lemma BitsInjective(p: seq<Byte>, q: seq<Byte>)
    requires BitsOf(p) == BitsOf(q)
    ensures p == q
  {
    hide BitsOf, Bit;
    forall j | 0 <= j < |p|
      ensures p[j] == q[j]
    {
      forall k | 8 * j <= k < 8 * j + 8
        ensures Bit(p, k) == Bit(q, k)
      {
        assert BitsOf(p)[k] == BitsOf(q)[k];
      }
      SameField(p, q, 8 * j, 8);
      BitFieldByte(p, j);
      BitFieldByte(q, j);
    }
  }

  lemma {:induction false} SameField(p: seq<Byte>, q: seq<Byte>, s: nat, w: nat)
    requires forall k :: s <= k < s + w ==> Bit(p, k) == Bit(q, k)
    ensures BitField(p, s, w) == BitField(q, s, w)
    decreases w
  {
    hide Bit;
    if w > 0 {
      SameField(p, q, s + 1, w - 1);
    }
  }

  lemma ZeroBytes(n: nat)
    ensures BitsOf(seq(n, _ => 0)) == Zeros(8 * n)
  {
    hide Shr;
    var z: seq<Byte> := seq(n, _ => 0);
    forall k: nat | k < 8 * n
      ensures Bit(z, k) == 0
    {
      ShrOfZero(k % 8);
    }
  }

  // ----- bits of OR and of a shifted bit -----

  lemma {:induction false} ShrOr(x: nat, y: nat, s: nat)
    ensures Shr(Or(x, y), s) == Or(Shr(x, s), Shr(y, s))
    decreases s
  {
    if s > 0 {
      ShrOr(x / 2, y / 2, s - 1);
    }
  }

  lemma {:induction false} OrBound(x: nat, y: nat, w: nat)
    requires x <= Mask(w) && y <= Mask(w)
    ensures Or(x, y) <= Mask(w)
    decreases w
  {
    if w > 0 {
      OrBound(x / 2, y / 2, w - 1);
    }
  }

  lemma {:induction false} BitOfShifted(b: nat, i: nat, j: nat)
    requires b <= 1
    ensures Shr(Up(b, i), j) % 2 == if i == j then b else 0
    decreases i + j
  {
    if i > 0 && j > 0 {
      BitOfShifted(b, i - 1, j - 1);
      assert Up(b, i) / 2 == Up(b, i - 1);
    } else if j > 0 {
      ShrOfZero(j - 1);
    }
  }

  /** `byte |= b << i`. */
  lemma OrBitIn(x: Byte, b: nat, i: nat, j: nat)
    requires b <= 1 && i < 8 && j < 8
    ensures Or(x, Shl(b, i, 8)) < 256
    ensures Shr(Or(x, Shl(b, i, 8)), j) % 2 == if i == j && b == 1 then 1 else Shr(x, j) % 2
  {
    hide Shr, Up, Or, Mask, Shl;
    MaskByteValue();
    MaskMono(1, 8 - i);
    UpBound(b, 1, i);
    MaskMono(i + 1, 8);
    ShlFits(b, 1, i, 8);
    OrBound(x, Up(b, i), 8);
    ShrOr(x, Up(b, i), j);
    BitOfShifted(b, i, j);
    OrParity(Shr(x, j), Shr(Up(b, i), j));
  }

  lemma MaskByteValue()
    ensures Mask(8) == 255 && Mask(1) == 1
  {
    MaskByte(0);
  }

  lemma OrParity(x: nat, y: nat)
    ensures Or(x, y) % 2 == if x % 2 == 1 || y % 2 == 1 then 1 else 0
  {
  }

  /** Setting bit `i` of byte `j`: only that bit changes, and only to 1. */
  lemma SetBit(p: seq<Byte>, j: nat, i: nat, b: nat)
    requires j < |p| && i < 8 && b <= 1
    ensures Or(p[j], Shl(b, i, 8)) < 256
    ensures BitsOf(p[j := Or(p[j], Shl(b, i, 8))])
         == BitsOf(p)[8 * j + i := if b == 1 then 1 else Bit(p, 8 * j + i)]
  {
    hide Shr, Or, Shl;
    OrBitIn(p[j], b, i, 0);
    var q := p[j := Or(p[j], Shl(b, i, 8))];
    forall k | 0 <= k < 8 * |p|
      ensures Bit(q, k) == BitsOf(p)[8 * j + i := if b == 1 then 1 else Bit(p, 8 * j + i)][k]
    {
      if k / 8 == j {
        OrBitIn(p[j], b, i, k % 8);
      }
    }
  }

  /** A bitmap filled up to `done`: those bits, then zeros to its end. */
  ghost predicate Filled(p: seq<Byte>, done: seq<nat>) {
    |done| <= 8 * |p| && BitsOf(p) == done + Zeros(8 * |p| - |done|)
  }

  /** The next bit. */
  lemma FillBit(p: seq<Byte>, j: nat, i: nat, b: nat, done: seq<nat>)
    requires Filled(p, done) && |done| == 8 * j + i && j < |p| && i < 8 && b <= 1
    ensures Or(p[j], Shl(b, i, 8)) < 256
    ensures Filled(p[j := Or(p[j], Shl(b, i, 8))], done + [b])
  {
    hide Or, Shl, Bit, BitsOf;
    SetBit(p, j, i, b);
    assert BitsOf(p)[|done|] == 0;
    assert BitsOf(p)[|done| := b] == done + [b] + Zeros(8 * |p| - |done| - 1);
  }

  /** The next bytes, the last of which may be partly filled. */
  lemma FillBytes(p: seq<Byte>, j: nat, q: seq<Byte>, done: seq<nat>, bits: seq<nat>)
    requires Filled(p, done) && |done| == 8 * j && j + |q| <= |p| && Filled(q, bits)
    ensures Filled(p[..j] + q + p[j + |q|..], done + bits)
  {
    hide BitsOf;
    var m := j + |q|;
    BitsConcat(p[..j] + q, p[m..]);
    BitsConcat(p[..j], q);
    BitsConcat(p[..j], p[j..]);
    BitsConcat(p[..m], p[m..]);
    assert p[..j] + p[j..] == p && p[..m] + p[m..] == p;
    assert BitsOf(p[..j]) == BitsOf(p)[..8 * j];
    assert BitsOf(p[m..]) == BitsOf(p)[8 * m..];
    assert (done + Zeros(8 * |p| - |done|))[..8 * j] == done;
    assert (done + Zeros(8 * |p| - |done|))[8 * m..] == Zeros(8 * |p| - 8 * m);
    Regroup(done, bits, 8 * |q| - |bits|, 8 * |p| - 8 * m);
  }

  lemma Regroup(done: seq<nat>, bits: seq<nat>, pad: nat, left: nat)
    ensures done + (bits + Zeros(pad)) + Zeros(left) == done + bits + Zeros(pad + left)
  {
    assert Zeros(pad) + Zeros(left) == Zeros(pad + left);
  }

  /** Zero bits are already there. */
  lemma FillZeros(p: seq<Byte>, done: seq<nat>, m: nat)
    requires Filled(p, done) && |done| + m <= 8 * |p|
    ensures Filled(p, done + Zeros(m))
  {
    hide BitsOf;
    assert Zeros(m) + Zeros(8 * |p| - |done| - m) == Zeros(8 * |p| - |done|);
  }

  /** `out.resize(out.len() + bytes, 0)`. */
  lemma ResizeZero(out0: seq<Byte>, bytes: nat)
    ensures Filled(out0 + seq(bytes, _ => 0), BitsOf(out0))
  {
    hide BitsOf;
    BitsConcat(out0, seq(bytes, _ => 0));
    ZeroBytes(bytes);
  }

  lemma ByteUpdate(p: seq<Byte>, j: nat, v: Byte)
    requires j < |p|
    ensures p[j := v] == p[..j] + [v] + p[j + 1..]
  {
  }

  lemma OnesByte()
    ensures BitsOf([0xFF]) == Ones(8)
  {
    hide Shr;
    forall k: nat | k < 8
      ensures Bit([0xFF], k) == 1
    {
      ShrOnes(k);
    }
  }

  lemma ShrOnes(k: nat)
    requires k < 8
    ensures Shr(0xFF, k) % 2 == 1
  {
    hide Shr, Mask;
    MaskByteValue();
    MaskSplit(8 - k, k);
    MaskMono(1, 8 - k);
    ShrSplit(Mask(k), Mask(8 - k), k);
    OddMask(8 - k);
  }

  lemma OddMask(w: nat)
    requires w > 0
    ensures Mask(w) % 2 == 1
  {
  }

  // ----- appending a bitmap -----

  /** `bits`, padded with zeros to whole bytes, behind the bytes of `out0`. */
  ghost predicate Appended(out0: seq<Byte>, bits: seq<nat>, out: seq<Byte>) {
    |out| == |out0| + CeilDiv8(|bits|) && Filled(out, BitsOf(out0) + bits)
  }

  /** Whatever fills a bitmap from the bits of `out0` on keeps the bytes of `out0`. */
  lemma FilledKeeps(out0: seq<Byte>, bits: seq<nat>, out: seq<Byte>)
    requires Filled(out, BitsOf(out0) + bits)
    ensures out0 <= out
  {
    hide Bit, BitsOf;
    BitsConcat(out[..|out0|], out[|out0|..]);
    assert out[..|out0|] + out[|out0|..] == out;
    assert BitsOf(out[..|out0|]) == BitsOf(out)[..8 * |out0|] == BitsOf(out0);
    BitsInjective(out[..|out0|], out0);
  }

  /** Earlier bytes stay, bit `r` is the row's, padding bits are zero. */
  lemma AppendedMeaning(out0: seq<Byte>, bits: seq<nat>, out: seq<Byte>)
    requires Appended(out0, bits, out)
    ensures out0 <= out && |out| == |out0| + CeilDiv8(|bits|)
    ensures forall r :: 0 <= r < |bits| ==> Bit(out, 8 * |out0| + r) == bits[r]
    ensures forall k :: 8 * |out0| + |bits| <= k < 8 * |out| ==> Bit(out, k) == 0
  {
    hide Bit;
    FilledKeeps(out0, bits, out);
    var pad := Zeros(8 * CeilDiv8(|bits|) - |bits|);
    forall k | 8 * |out0| <= k < 8 * |out|
      ensures Bit(out, k) == (bits + pad)[k - 8 * |out0|]
    {
      assert BitsOf(out)[k] == (BitsOf(out0) + bits + pad)[k];
    }
  }
}
