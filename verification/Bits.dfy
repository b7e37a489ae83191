/** Bytes, powers of two, bitwise operators on naturals, and the positional meaning of a packed
    byte string: `BitField(p, s, w)` is the number formed by bits `[s, s + w)` of `p`, least
    significant bit first, with zeros past the end. */
module Bits {

  type Byte = x: int | 0 <= x < 256

  const U32_MODULUS: nat := 0x1_0000_0000
  const U64_MODULUS: nat := 0x1_0000_0000_0000_0000

  function Min(a: int, b: int): int {
    if a <= b then a else b
  }

  function CeilDiv8(n: nat): nat {
    (n + 7) / 8
  }

  /** `x` times 2^s. */
  function Up(x: nat, s: nat): nat
    decreases s
  {
    if s == 0 then x else 2 * Up(x, s - 1)
  }

  /** `x >> s`. */
  function Shr(x: nat, s: nat): nat
    decreases s
  {
    if s == 0 then x else Shr(x / 2, s - 1)
  }

  /** The low `w` bits of `x`. */
  function Low(x: nat, w: nat): nat
    decreases w, x
  {
    if w == 0 then 0 else x % 2 + 2 * Low(x / 2, w - 1)
  }

  /** 2^w - 1, the mask of the low `w` bits. */
  function Mask(w: nat): nat {
    if w == 0 then 0 else 2 * Mask(w - 1) + 1
  }

  /** Left shift inside a `width`-bit register: bits pushed past the top are lost. */
  function Shl(x: nat, s: nat, width: nat): nat {
    Low(Up(x, s), width)
  }

  function Or(x: nat, y: nat): nat
    decreases x + y
  {
    if x == 0 && y == 0 then 0
    else (if x % 2 == 1 || y % 2 == 1 then 1 else 0) + 2 * Or(x / 2, y / 2)
  }

  function And(x: nat, y: nat): nat {
    if x == 0 then 0
    else (if x % 2 == 1 && y % 2 == 1 then 1 else 0) + 2 * And(x / 2, y / 2)
  }

  lemma ShrZero(x: nat)
    ensures Shr(x, 0) == x
  {
  }

  lemma {:induction false} ShrOfZero(s: nat)
    ensures Shr(0, s) == 0
  {
    if s > 0 {
      ShrOfZero(s - 1);
    }
  }

  // ----- the positional specification -----

  function Bit(p: seq<Byte>, k: nat): (b: nat)
    ensures b < 2
  {
    if k / 8 < |p| then Shr(p[k / 8], k % 8) % 2 else 0
  }

  function BitField(p: seq<Byte>, s: nat, w: nat): nat
    decreases w, p
  {
    if w == 0 then 0 else Bit(p, s) + 2 * BitField(p, s + 1, w - 1)
  }

  /** `n` consecutive fields of `bw` bits from bit `s` on. */
  function Fields(p: seq<Byte>, s: nat, n: nat, bw: nat): (r: seq<nat>)
    ensures |r| == n
    decreases n, p
  {
    if n == 0 then [] else [BitField(p, s, bw)] + Fields(p, s + bw, n - 1, bw)
  }

  /** A bit-packed run of `n` values; `UnpackedAt` says that value `i` is bits `[i*bw, (i+1)*bw)`. */
  function Unpacked(p: seq<Byte>, n: nat, bw: nat): (r: seq<nat>)
    ensures |r| == n
  {
    Fields(p, 0, n, bw)
  }

  /** The bits taken by `n` values: `n * bw`, as repeated addition. */
  function Span(n: nat, bw: nat): nat
    decreases n, bw
  {
    if n == 0 then 0 else bw + Span(n - 1, bw)
  }

  function LeNat(p: seq<Byte>): nat {
    if p == [] then 0 else p[0] + 256 * LeNat(p[1..])
  }

  /** The low `n` bytes of `x`, least significant first. */
  function LeBytes(x: nat, n: nat): (r: seq<Byte>)
    ensures |r| == n
    decreases n, x
  {
    if n == 0 then [] else [x % 256] + LeBytes(x / 256, n - 1)
  }

  /** Byte strings one after another. */
  function Concat(strings: seq<seq<Byte>>): seq<Byte> {
    if strings == [] then [] else strings[0] + Concat(strings[1..])
  }

  // ----- shifts and masks -----

  lemma {:induction false} UpAdd(x: nat, a: nat, b: nat)
    ensures Up(Up(x, a), b) == Up(x, a + b)
    decreases b
  {
    if b > 0 {
      UpAdd(x, a, b - 1);
    }
  }

  lemma {:induction false} UpSum(x: nat, y: nat, s: nat)
    ensures Up(x + y, s) == Up(x, s) + Up(y, s)
    decreases s
  {
    if s > 0 {
      UpSum(x, y, s - 1);
    }
  }

  lemma {:induction false} ShrSucc(x: nat, s: nat)
    ensures Shr(x, s + 1) == Shr(x, s) / 2
    decreases s
  {
    if s > 0 {
      ShrSucc(x / 2, s - 1);
    }
  }

  lemma {:induction false} MaskMono(a: nat, b: nat)
    requires a <= b
    ensures Mask(a) <= Mask(b)
    decreases b
  {
    if a < b {
      MaskMono(a, b - 1);
    }
  }

  lemma MaskByte(w: nat)
    ensures Mask(w + 8) == 256 * Mask(w) + 255
  {
    assert Mask(w + 2) == 4 * Mask(w) + 3;
    assert Mask(w + 4) == 4 * Mask(w + 2) + 3;
    assert Mask(w + 6) == 4 * Mask(w + 4) + 3;
    assert Mask(w + 8) == 4 * Mask(w + 6) + 3;
  }

  lemma MaskZero()
    ensures Mask(0) == 0
  {
  }

  lemma MaskValues()
    ensures Mask(8) == 0xFF && Mask(16) == 0xFFFF
    ensures Mask(32) == U32_MODULUS - 1 && Mask(64) == U64_MODULUS - 1
  {
    hide Mask;
    MaskZero();
    MaskByte(0);
    MaskByte(8);
    MaskByte(16);
    MaskByte(24);
    MaskByte(32);
    MaskByte(40);
    MaskByte(48);
    MaskByte(56);
  }

  lemma UpByte(x: nat)
    ensures Up(x, 8) == 256 * x
  {
    assert Up(x, 2) == 4 * x;
    assert Up(x, 4) == 4 * Up(x, 2);
    assert Up(x, 6) == 4 * Up(x, 4);
  }

  lemma {:induction false} LowBound(x: nat, w: nat)
    ensures Low(x, w) <= Mask(w)
    decreases w
  {
    if w > 0 {
      LowBound(x / 2, w - 1);
    }
  }

  lemma {:induction false} LowFits(x: nat, w: nat)
    requires x <= Mask(w)
    ensures Low(x, w) == x
    decreases w
  {
    if w > 0 {
      LowFits(x / 2, w - 1);
    }
  }

  /** A value of `k` bits shifted up by `s` fits `s + k` bits. */
  lemma {:induction false} UpBound(x: nat, k: nat, s: nat)
    requires x <= Mask(k)
    ensures Up(x, s) + Mask(s) <= Mask(s + k)
    decreases s
  {
    if s > 0 {
      UpBound(x, k, s - 1);
      assert Mask(s + k) == 2 * Mask(s - 1 + k) + 1;
    }
  }

  /** The low bits of a value split at bit `k`. */
  lemma {:induction false} LowSplit(x: nat, y: nat, k: nat, m: nat)
    requires x <= Mask(k)
    ensures Low(x + Up(y, k), k + m) == x + Up(Low(y, m), k)
    decreases k
  {
    if k > 0 {
      LowSplit(x / 2, y, k - 1, m);
      assert k + m - 1 == k - 1 + m;
      assert (x + Up(y, k)) / 2 == x / 2 + Up(y, k - 1);
    }
  }

  lemma {:induction false} ShrAdd(x: nat, a: nat, b: nat)
    ensures Shr(Shr(x, a), b) == Shr(x, a + b)
    decreases a
  {
    if a > 0 {
      ShrAdd(x / 2, a - 1, b);
      assert a - 1 + b == a + b - 1;
    }
  }

  lemma ShrByte(x: nat)
    ensures Shr(x, 8) == x / 256
  {
    assert Shr(x, 2) == x / 4;
    ShrAdd(x, 2, 2);
    ShrAdd(x, 4, 4);
    assert Shr(x / 4, 2) == x / 16;
    assert Shr(x, 4) == x / 16;
    assert Shr(x / 16, 2) == x / 64;
    ShrAdd(x / 16, 2, 2);
  }

  lemma {:induction false} UpNonZero(j: nat)
    ensures Up(1, j) > 0 && Up(0, j) == 0
  {
    if j > 0 {
      UpNonZero(j - 1);
    }
  }

  lemma {:induction false} ShrSplit(x: nat, y: nat, k: nat)
    requires x <= Mask(k)
    ensures Shr(x + Up(y, k), k) == y
    decreases k
  {
    if k > 0 {
      ShrSplit(x / 2, y, k - 1);
      assert (x + Up(y, k)) / 2 == x / 2 + Up(y, k - 1);
    }
  }

  /** Adding a multiple of 2^k does not change fewer than `k` low bits. */
  lemma {:induction false} LowIgnoresHigh(x: nat, y: nat, k: nat, w: nat)
    requires w <= k
    ensures Low(x + Up(y, k), w) == Low(x, w)
    decreases w
  {
    if w > 0 {
      LowIgnoresHigh(x / 2, y, k - 1, w - 1);
      assert (x + Up(y, k)) / 2 == x / 2 + Up(y, k - 1);
    }
  }

  /** Shifting right by `s` drops the low `s` bits of the lower part only. */
  lemma {:induction false} ShrSum(x: nat, y: nat, k: nat, s: nat)
    requires s <= k
    ensures Shr(x + Up(y, k), s) == Shr(x, s) + Up(y, k - s)
    decreases s
  {
    if s > 0 {
      ShrSum(x / 2, y, k - 1, s - 1);
      assert (x + Up(y, k)) / 2 == x / 2 + Up(y, k - 1);
    }
  }

  // ----- two's complement -----

  function ToSigned(x: nat, width: nat): int
    requires width > 0
  {
    if x > Mask(width - 1) then x - Mask(width) - 1 else x
  }

  function FromSigned(v: int, width: nat): int {
    if v < 0 then v + Mask(width) + 1 else v
  }

  /** Arithmetic right shift: halving that rounds toward minus infinity. */
  function Asr(v: int, s: nat): int
    decreases s
  {
    if s == 0 then v else Asr(v / 2, s - 1)
  }

  /** An arithmetic shift of a lane differs from a logical one only in the top `s` bits. */
  lemma {:induction false} AsrLane(x: nat, width: nat, s: nat)
    requires s < width && x <= Mask(width)
    ensures var v := FromSigned(Asr(ToSigned(x, width), s), width);
            v == Shr(x, s) || v == Shr(x, s) + Up(Mask(s), width - s)
  {
    ShrBound(x, s, width - s);
    if x > Mask(width - 1) {
      AsrNegative(x, width, s);
    } else {
      AsrShr(x, s);
    }
  }

  lemma {:induction false} AsrShr(x: nat, s: nat)
    ensures Asr(x, s) == Shr(x, s)
    decreases s
  {
    if s > 0 {
      AsrShr(x / 2, s - 1);
    }
  }

  lemma {:induction false} ShrBound(x: nat, s: nat, k: nat)
    requires x <= Mask(s + k)
    ensures Shr(x, s) <= Mask(k)
    decreases s
  {
    if s > 0 {
      assert s + k - 1 == s - 1 + k;
      ShrBound(x / 2, s - 1, k);
    }
  }

  /** 2^width - 1 is 2^s - 1 in the top bits over 2^k - 1 in the low ones. */
  lemma {:induction false} MaskSplit(s: nat, k: nat)
    ensures Mask(s + k) == Mask(k) + Up(Mask(s), k)
    decreases k
  {
    if k > 0 {
      MaskSplit(s, k - 1);
      assert s + k - 1 == s + (k - 1);
    }
  }

  lemma {:induction false} AsrNegative(x: nat, width: nat, s: nat)
    requires s < width && Mask(width - 1) < x <= Mask(width)
    ensures Asr(x - Mask(width) - 1, s) == Shr(x, s) - Mask(width - s) - 1
    ensures FromSigned(Asr(x - Mask(width) - 1, s), width) == Shr(x, s) + Up(Mask(s), width - s)
  {
    AsrStep(x, width, s);
    ShrBound(x, s, width - s);
    MaskSplit(s, width - s);
  }

  lemma {:induction false} AsrStep(x: nat, width: nat, s: nat)
    requires s <= width && x <= Mask(width)
    ensures Asr(x - Mask(width) - 1, s) == Shr(x, s) - Mask(width - s) - 1
    decreases s
  {
    if s > 0 {
      assert (x - Mask(width) - 1) / 2 == x / 2 - Mask(width - 1) - 1;
      AsrStep(x / 2, width - 1, s - 1);
      assert width - 1 - (s - 1) == width - s;
    }
  }

  lemma {:induction false} OrZero(y: nat)
    ensures Or(0, y) == y
  {
    if y > 0 {
      OrZero(y / 2);
    }
  }

  /** OR-ing in a value shifted above the `k` bits already there is addition. */
  lemma {:induction false} OrDisjoint(x: nat, y: nat, k: nat)
    requires x <= Mask(k)
    ensures Or(x, Up(y, k)) == x + Up(y, k)
    decreases k
  {
    if k == 0 {
      OrZero(y);
    } else {
      OrDisjoint(x / 2, y, k - 1);
    }
  }

  lemma {:induction false} AndZero(x: nat)
    ensures And(x, 0) == 0
    decreases x
  {
    if x > 0 {
      AndZero(x / 2);
    }
  }

  lemma {:induction false} AndMask(x: nat, w: nat)
    ensures And(x, Mask(w)) == Low(x, w)
    decreases w
  {
    if w == 0 {
      AndZero(x);
    } else {
      AndMask(x / 2, w - 1);
    }
  }

  /** AND with a single-bit mask isolates that bit. */
  lemma {:induction false} AndBit(x: nat, k: nat)
    ensures And(x, Up(1, k)) == Up(Shr(x, k) % 2, k)
    decreases k
  {
    if k == 0 {
      AndZero(x / 2);
    } else {
      AndBit(x / 2, k - 1);
    }
  }

  // ----- bit fields -----

  lemma {:induction false} BitFieldBound(p: seq<Byte>, s: nat, w: nat)
    ensures BitField(p, s, w) <= Mask(w)
    decreases w
  {
    if w > 0 {
      BitFieldBound(p, s + 1, w - 1);
    }
  }

  lemma {:induction false} BitFieldSplit(p: seq<Byte>, s: nat, a: nat, b: nat)
    ensures BitField(p, s, a + b) == BitField(p, s, a) + Up(BitField(p, s + a, b), a)
    decreases a
  {
    if a > 0 {
      BitFieldSplit(p, s + 1, a - 1, b);
      assert s + 1 + (a - 1) == s + a && a - 1 + b == a + b - 1;
    }
  }

  /** Taking the low `a` bits, and dropping them, of a field of width `w`. */
  lemma {:induction false} BitFieldLowHigh(p: seq<Byte>, s: nat, a: nat, w: nat)
    requires a <= w
    ensures Low(BitField(p, s, w), a) == BitField(p, s, a)
    ensures Shr(BitField(p, s, w), a) == BitField(p, s + a, w - a)
    decreases a
  {
    hide Bit;
    if a > 0 {
      BitFieldLowHigh(p, s + 1, a - 1, w - 1);
      assert s + 1 + (a - 1) == s + a && w - 1 - (a - 1) == w - a;
    }
  }

  /** The top `w` bits of byte `j` are the byte shifted right by `8 - w`. */
  lemma {:induction false} ByteTail(p: seq<Byte>, j: nat, i: nat, w: nat)
    requires j < |p| && i + w == 8
    ensures BitField(p, 8 * j + i, w) == Shr(p[j], i)
    decreases w
  {
    if w > 0 {
      ByteTail(p, j, i + 1, w - 1);
      assert (8 * j + i) / 8 == j && (8 * j + i) % 8 == i;
      ShrSucc(p[j], i);
    } else {
      assert Shr(p[j], 8) == 0;
    }
  }

  lemma BitFieldByte(p: seq<Byte>, j: nat)
    requires j < |p|
    ensures BitField(p, 8 * j, 8) == p[j]
  {
    ByteTail(p, j, 0, 8);
  }

  /** A field of a slice is the field of the whole at the shifted position. */
  lemma {:induction false} BitFieldSlice(p: seq<Byte>, lo: nat, hi: nat, s: nat, w: nat)
    requires lo <= hi <= |p| && s + w <= 8 * (hi - lo)
    ensures BitField(p[lo..hi], s, w) == BitField(p, 8 * lo + s, w)
    decreases w
  {
    if w > 0 {
      BitFieldSlice(p, lo, hi, s + 1, w - 1);
      assert (8 * lo + s) / 8 == lo + s / 8 && (8 * lo + s) % 8 == s % 8;
    }
  }

  /** Bytes appended after `p` do not change fields that lie inside `p`. */
  lemma {:induction false} BitFieldPrefix(p: seq<Byte>, q: seq<Byte>, s: nat, w: nat)
    requires p <= q && s + w <= 8 * |p|
    ensures BitField(p, s, w) == BitField(q, s, w)
    decreases w
  {
    if w > 0 {
      BitFieldPrefix(p, q, s + 1, w - 1);
    }
  }

  lemma MulInterval(i: nat, n: nat, bw: nat)
    requires i < n
    ensures i * bw + bw <= n * bw && (i + 1) * bw == i * bw + bw
  {
    assert (i + 1) * bw <= n * bw;
  }

  lemma {:induction false} SpanIsProduct(n: nat, bw: nat)
    ensures Span(n, bw) == n * bw
  {
    if n > 0 {
      SpanIsProduct(n - 1, bw);
      assert n * bw == (n - 1) * bw + bw;
    }
  }

  lemma {:induction false} SpanSplit(a: nat, b: nat, bw: nat)
    ensures Span(a + b, bw) == Span(a, bw) + Span(b, bw)
    decreases a
  {
    if a > 0 {
      SpanSplit(a - 1, b, bw);
      assert a - 1 + b == a + b - 1;
    }
  }

  lemma EmptyField(p: seq<Byte>, s: nat)
    ensures BitField(p, s, 0) == 0
  {
  }

  /** The first of `n` fields, and the span that is left. */
  lemma FieldsUnfold(p: seq<Byte>, s: nat, n: nat, bw: nat)
    ensures n == 0 ==> Fields(p, s, n, bw) == [] && Span(n, bw) == 0
    ensures n > 0 ==> Fields(p, s, n, bw) == [BitField(p, s, bw)] + Fields(p, s + bw, n - 1, bw)
    ensures n > 0 ==> Span(n, bw) == bw + Span(n - 1, bw)
  {
  }

  /** Value `i` of a bit-packed run is bits `[i*bw, (i+1)*bw)`. */
  lemma UnpackedAt(p: seq<Byte>, n: nat, bw: nat, i: nat)
    requires i < n
    ensures Unpacked(p, n, bw)[i] == BitField(p, i * bw, bw)
  {
    FieldsAt(p, 0, n, bw, i);
    SpanIsProduct(i, bw);
  }

  lemma {:induction false} FieldsAt(p: seq<Byte>, s: nat, n: nat, bw: nat, i: nat)
    requires i < n
    ensures Fields(p, s, n, bw)[i] == BitField(p, s + Span(i, bw), bw) <= Mask(bw)
    decreases i
  {
    hide BitField, Mask;
    if i > 0 {
      FieldsAt(p, s + bw, n - 1, bw, i - 1);
    } else {
      BitFieldBound(p, s, bw);
    }
  }

  lemma {:induction false} FieldsSplit(p: seq<Byte>, s: nat, a: nat, b: nat, bw: nat)
    ensures Fields(p, s, a + b, bw) == Fields(p, s, a, bw) + Fields(p, s + Span(a, bw), b, bw)
    decreases a
  {
    hide BitField;
    if a > 0 {
      FieldsSplit(p, s + bw, a - 1, b, bw);
      assert a - 1 + b == a + b - 1;
    }
  }

  lemma {:induction false} FieldsSlice(p: seq<Byte>, lo: nat, hi: nat, s: nat, n: nat, bw: nat)
    requires lo <= hi <= |p| && s + Span(n, bw) <= 8 * (hi - lo)
    ensures Fields(p[lo..hi], s, n, bw) == Fields(p, 8 * lo + s, n, bw)
    decreases n
  {
    hide BitField;
    if n > 0 {
      BitFieldSlice(p, lo, hi, s, bw);
      FieldsSlice(p, lo, hi, s + bw, n - 1, bw);
      assert 8 * lo + (s + bw) == 8 * lo + s + bw;
    }
  }

  lemma {:induction false} FieldsPrefix(p: seq<Byte>, q: seq<Byte>, s: nat, n: nat, bw: nat)
    requires p <= q && s + Span(n, bw) <= 8 * |p|
    ensures Fields(p, s, n, bw) == Fields(q, s, n, bw)
    decreases n
  {
    hide BitField;
    if n > 0 {
      BitFieldPrefix(p, q, s, bw);
      FieldsPrefix(p, q, s + bw, n - 1, bw);
    }
  }

  lemma {:induction false} LeNatIsField(p: seq<Byte>)
    ensures LeNat(p) == BitField(p, 0, 8 * |p|)
  {
    if p != [] {
      var t := p[1..];
      LeNatIsField(t);
      BitFieldSplit(p, 0, 8, 8 * |t|);
      BitFieldByte(p, 0);
      BitFieldSlice(p, 1, |p|, 0, 8 * |t|);
      assert p[1..|p|] == t;
      UpByte(LeNat(t));
    }
  }

  // ----- streaming bit buffer: push one byte, pop one value -----

  /** `buf |= (byte as uW) << bits` appends the next byte above the `bits` buffered bits. */
  lemma PushByte(p: seq<Byte>, start: nat, bits: nat, j: nat, width: nat)
    requires start + bits == 8 * j && j < |p| && bits + 8 <= width
    ensures Or(BitField(p, start, bits), Shl(p[j], bits, width)) == BitField(p, start, bits + 8)
  {
    hide BitField, Or, Shl, Mask;
    BitFieldBound(p, start, bits);
    BitFieldSplit(p, start, bits, 8);
    BitFieldByte(p, j);
    MaskZero();
    MaskByte(0);
    ShlFits(p[j], 8, bits, width);
    OrDisjoint(BitField(p, start, bits), p[j], bits);
  }

  lemma ShlFits(x: nat, k: nat, s: nat, width: nat)
    requires s + k <= width && x <= Mask(k)
    ensures Shl(x, s, width) == Up(x, s)
  {
    UpBound(x, k, s);
    MaskMono(s + k, width);
    LowFits(Up(x, s), width);
  }

  /** `buf & mask` is the next value and `buf >> bw` keeps the rest. */
  lemma PopValue(p: seq<Byte>, start: nat, bits: nat, bw: nat)
    requires bw <= bits
    ensures And(BitField(p, start, bits), Mask(bw)) == BitField(p, start, bw)
    ensures Shr(BitField(p, start, bits), bw) == BitField(p, start + bw, bits - bw)
  {
    AndMask(BitField(p, start, bits), bw);
    BitFieldLowHigh(p, start, bw, bits);
  }

  lemma LeNatBound(p: seq<Byte>)
    ensures LeNat(p) <= Mask(8 * |p|)
  {
    LeNatIsField(p);
    BitFieldBound(p, 0, 8 * |p|);
  }

  /** Shifting a window down and masking it selects a field of the window. */
  lemma WindowField(p: seq<Byte>, start: nat, width: nat, s: nat, bw: nat)
    requires s + bw <= width
    ensures And(Shr(BitField(p, start, width), s), Mask(bw)) == BitField(p, start + s, bw)
  {
    BitFieldLowHigh(p, start, s, width);
    BitFieldLowHigh(p, start + s, bw, width - s);
    AndMask(BitField(p, start + s, width - s), bw);
  }

  // ----- little-endian numbers written and read -----

  lemma {:induction false} LeBytesRoundTrip(x: nat, n: nat)
    requires x <= Mask(8 * n)
    ensures LeNat(LeBytes(x, n)) == x
    decreases n
  {
    if n > 0 {
      MaskByte(8 * (n - 1));
      assert 8 * (n - 1) + 8 == 8 * n;
      hide Mask;
      LeBytesRoundTrip(x / 256, n - 1);
      assert LeBytes(x, n)[1..] == LeBytes(x / 256, n - 1);
    } else {
      MaskZero();
    }
  }

  lemma {:induction false} LeNatRoundTrip(p: seq<Byte>)
    ensures LeBytes(LeNat(p), |p|) == p
    decreases |p|
  {
    if p != [] {
      var rest := LeNat(p[1..]);
      LeNatRoundTrip(p[1..]);
      FirstByte(p[0], rest);
      LeBytesUnfold(LeNat(p), |p|);
      hide LeNat, LeBytes;
      assert p == [p[0]] + p[1..];
    }
  }

  lemma FirstByte(b: Byte, rest: nat)
    ensures (b + 256 * rest) % 256 == b && (b + 256 * rest) / 256 == rest
  {
  }

  lemma LeBytesUnfold(x: nat, n: nat)
    requires n > 0
    ensures LeBytes(x, n) == [x % 256] + LeBytes(x / 256, n - 1)
  {
  }
}
