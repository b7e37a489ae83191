/** The vector unpackers. The source writes one function per bit width and instruction set; they
    differ only in their tables, so a kernel here is a table, and one driver runs any kernel over
    the full blocks and leaves the rest to the scalar streaming buffer. Registers are byte
    sequences; each intrinsic is a function on them. */
module VectorKernels {
  import opened Bits
  import opened Wire
  import opened Bitpack

  // ----- intrinsics -----

  function Load(mem: seq<Byte>, at: nat, n: nat): (r: seq<Byte>)
    requires at + n <= |mem|
    ensures |r| == n
  {
    mem[at..at + n]
  }

  /** One lane of `_mm_shuffle_epi8` or `vqtbl1q_u8` with the in-range indices
      `start, start + 1, ...`; every shuffle table of the source is made of such runs. */
  function ShuffleLane(reg: seq<Byte>, start: nat, size: nat): (r: seq<Byte>)
    requires start + size <= |reg|
    ensures |r| == size
  {
    seq(size, i requires 0 <= i < size => reg[start + i])
  }

  /** `_mm_srlv_epi32/64`: logical. `vshlq_s16/s32/s64` by a negative count: the lane is
      reinterpreted as signed, shifted arithmetically, and reinterpreted back. */
  function ShiftLane(x: nat, s: nat, width: nat, signed: bool): nat
    requires s < width && x <= Mask(width)
  {
    if signed then
      AsrLane(x, width, s);
      FromSigned(Asr(ToSigned(x, width), s), width)
    else Shr(x, s)
  }

  function AndBytes(reg: seq<Byte>, m: Byte): (r: seq<nat>)
    ensures |r| == |reg|
  {
    seq(|reg|, i requires 0 <= i < |reg| => And(reg[i], m))
  }

  /** `_mm_srli_epi16`: each pair of bytes is shifted as one 16-bit word. */
  function Srli16(reg: seq<Byte>, s: nat): (r: seq<Byte>)
    requires |reg| % 2 == 0
    ensures |r| == |reg|
  {
    seq(|reg|, i requires 0 <= i < |reg| => Srli16Byte(reg[i / 2 * 2], reg[i / 2 * 2 + 1], s, i % 2 == 1))
  }

  function Srli16Byte(b0: Byte, b1: Byte, s: nat, high: bool): Byte {
    var word := Shr(b0 + 256 * b1, s) % 0x1_0000;
    if high then word / 256 else word % 256
  }

  /** `vshrq_n_u8`: each byte on its own. */
  function ShrBytes(reg: seq<Byte>, s: nat): (r: seq<Byte>)
    ensures |r| == |reg|
  {
    seq(|reg|, i requires 0 <= i < |reg| => Shr(reg[i], s) % 256)
  }

  /** `unpacklo/hi_epi8`, `vzip1/2`: interleave `n` elements of `a` and `b` from `at` on. */
  function Zip<T>(a: seq<T>, b: seq<T>, at: nat, n: nat): (r: seq<T>)
    requires at + n <= |a| && at + n <= |b|
    ensures |r| == 2 * n
  {
    seq(2 * n, i requires 0 <= i < 2 * n => if i % 2 == 0 then a[at + i / 2] else b[at + i / 2])
  }

  /** The same at 16-bit granularity on 16-element registers: 16 elements, from `at` = 0 or 8 on. */
  function ZipPairs<T>(a: seq<T>, b: seq<T>, at: nat): (r: seq<T>)
    requires |a| == 16 && |b| == 16 && (at == 0 || at == 8)
    ensures |r| == 16
  {
    seq(16, i requires 0 <= i < 16 =>
      if i % 4 < 2 then a[at + 2 * (i / 4) + i % 2] else b[at + 2 * (i / 4) + i % 2])
  }

  lemma AndBytesAt(reg: seq<Byte>, m: Byte, i: nat)
    requires i < |reg|
    ensures AndBytes(reg, m)[i] == And(reg[i], m)
  {
    hide And;
  }

  lemma ZipAt<T>(a: seq<T>, b: seq<T>, at: nat, n: nat, i: nat)
    requires at + n <= |a| && at + n <= |b| && i < 2 * n
    ensures Zip(a, b, at, n)[i] == if i % 2 == 0 then a[at + i / 2] else b[at + i / 2]
  {
  }

  lemma ZipPairsAt<T>(a: seq<T>, b: seq<T>, at: nat, i: nat)
    requires |a| == 16 && |b| == 16 && (at == 0 || at == 8) && i < 16
    ensures ZipPairs(a, b, at)[i]
         == if i % 4 < 2 then a[at + 2 * (i / 4) + i % 2] else b[at + 2 * (i / 4) + i % 2]
  {
  }

  lemma ShiftedAt(reg: seq<Byte>, s: nat, i: nat)
    requires i < |reg|
    ensures ShrBytes(reg, s)[i] == Shr(reg[i], s) % 256
    ensures |reg| % 2 == 0 ==>
              Srli16(reg, s)[i] == Srli16Byte(reg[i / 2 * 2], reg[i / 2 * 2 + 1], s, i % 2 == 1)
  {
    hide Shr, Srli16Byte;
  }

  // ----- kernels -----

  datatype Kernel =
    // two 16-byte loads, at the block start and `hiOff` later; four 32-bit lanes from each, given
    // by the first byte each lane picks
    | Shuffle32(bw: nat, hiOff: nat, shufLo: seq<nat>, shufHi: seq<nat>, shifts: seq<nat>, mask: nat)
    // one 16-byte load; eight 16-bit lanes
    | Shuffle16(bw: nat, shuf: seq<nat>, shifts: seq<nat>, mask: nat)
    // per-lane little-endian reads of `laneBytes` bytes
    | Gather(bw: nat, laneBytes: nat, offsets: seq<nat>, shifts: seq<nat>, mask: nat)
    // byte-aligned values, zero-extended
    | Widen(bw: nat, laneBytes: nat, lanes: nat)
    // 4-bit and 2-bit values: split a byte into streams and interleave; `byteShift` tells a
    // per-byte shift from a 16-bit shift with mask
    | Nibbles(byteShift: bool)
    | BitPairs(byteShift: bool)
    // 1-bit values: broadcast a byte, AND with one bit per lane, compare
    | BitTest

  /** Shuffle tables for widths 3, 6, 7 and 9 to 12. */
  function NarrowShuffle(bw: nat): Kernel {
    match bw
    case 3 => Shuffle32(3, 0, [0, 0, 0, 1], [1, 1, 2, 2], [0, 3, 6, 1, 4, 7, 2, 5], 0x7)
    case 6 => Shuffle32(6, 0, [0, 0, 1, 2], [3, 3, 4, 5], [0, 6, 4, 2, 0, 6, 4, 2], 0x3F)
    case 7 => Shuffle32(7, 0, [0, 0, 1, 2], [3, 4, 5, 6], [0, 7, 6, 5, 4, 3, 2, 1], 0x7F)
    case 9 => Shuffle32(9, 0, [0, 1, 2, 3], [4, 5, 6, 7], [0, 1, 2, 3, 4, 5, 6, 7], 0x1FF)
    case 10 => Shuffle32(10, 0, [0, 1, 2, 3], [5, 6, 7, 8], [0, 2, 4, 6, 0, 2, 4, 6], 0x3FF)
    case 11 => Shuffle32(11, 0, [0, 1, 2, 4], [5, 6, 8, 9], [0, 3, 6, 1, 4, 7, 2, 5], 0x7FF)
    case _ => Shuffle32(12, 0, [0, 1, 3, 4], [6, 7, 9, 10], [0, 4, 0, 4, 0, 4, 0, 4], 0xFFF)
  }

  /** Shuffle tables for widths 13 to 15 and 17 to 21. */
  function WideShuffle(bw: nat): Kernel {
    match bw
    case 13 => Shuffle32(13, 0, [0, 1, 3, 4], [6, 8, 9, 11], [0, 5, 2, 7, 4, 1, 6, 3], 0x1FFF)
    case 14 => Shuffle32(14, 0, [0, 1, 3, 5], [7, 8, 10, 12], [0, 6, 4, 2, 0, 6, 4, 2], 0x3FFF)
    case 15 => Shuffle32(15, 7, [0, 1, 3, 5], [0, 2, 4, 6], [0, 7, 6, 5, 4, 3, 2, 1], 0x7FFF)
    case 17 => Shuffle32(17, 8, [0, 2, 4, 6], [0, 2, 4, 6], [0, 1, 2, 3, 4, 5, 6, 7], 0x1FFFF)
    case 18 => Shuffle32(18, 7, [0, 2, 4, 6], [2, 4, 6, 8], [0, 2, 4, 6, 0, 2, 4, 6], 0x3FFFF)
    case 19 => Shuffle32(19, 9, [0, 2, 4, 7], [0, 2, 5, 7], [0, 3, 6, 1, 4, 7, 2, 5], 0x7FFFF)
    case 20 => Shuffle32(20, 10, [0, 2, 5, 7], [0, 2, 5, 7], [0, 4, 0, 4, 0, 4, 0, 4], 0xFFFFF)
    case _ => Shuffle32(21, 10, [0, 2, 5, 7], [0, 3, 5, 8], [0, 5, 2, 7, 4, 1, 6, 3], 0x1FFFFF)
  }

  /** Windows read byte by byte into 32-bit lanes. */
  function GatherU32(bw: nat): Kernel {
    match bw
    case 5 => Gather(5, 4, [0, 0, 1, 1, 2, 3, 3, 4], [0, 5, 2, 7, 4, 1, 6, 3], 0x1F)
    case 20 => Gather(20, 4, [0, 2, 5, 7, 10, 12, 15, 17], [0, 4, 0, 4, 0, 4, 0, 4], 0xFFFFF)
    case 21 => Gather(21, 4, [0, 2, 5, 7, 10, 13, 15, 18], [0, 5, 2, 7, 4, 1, 6, 3], 0x1FFFFF)
    case 22 => Gather(22, 4, [0, 2, 5, 8, 11, 13, 16, 19], [0, 6, 4, 2, 0, 6, 4, 2], 0x3FFFFF)
    case 23 => Gather(23, 4, [0, 2, 5, 8, 11, 14, 17, 20], [0, 7, 6, 5, 4, 3, 2, 1], 0x7FFFFF)
    case 24 => Gather(24, 4, [0, 3, 6, 9, 12, 15, 18, 21], [0, 0, 0, 0, 0, 0, 0, 0], 0xFFFFFF)
    case _ => Gather(25, 4, [0, 3, 6, 9, 12, 15, 18, 21], [0, 1, 2, 3, 4, 5, 6, 7], 0x1FFFFFF)
  }

  /** Windows read byte by byte into 64-bit lanes. */
  function GatherU64(bw: nat): Kernel {
    match bw
    case 26 => Gather(26, 8, [0, 3, 6, 9, 13, 16, 19, 22], [0, 2, 4, 6, 0, 2, 4, 6], 0x3FFFFFF)
    case 27 => Gather(27, 8, [0, 3, 6, 10, 13, 16, 20, 23], [0, 3, 6, 1, 4, 7, 2, 5], 0x7FFFFFF)
    case 28 => Gather(28, 8, [0, 3, 7, 10, 14, 17, 21, 24], [0, 4, 0, 4, 0, 4, 0, 4], 0xFFFFFFF)
    case 29 => Gather(29, 8, [0, 3, 7, 10, 14, 18, 21, 25], [0, 5, 2, 7, 4, 1, 6, 3], 0x1FFFFFFF)
    case 30 => Gather(30, 8, [0, 3, 7, 11, 15, 18, 22, 26], [0, 6, 4, 2, 0, 6, 4, 2], 0x3FFFFFFF)
    case _ => Gather(31, 8, [0, 3, 7, 11, 15, 19, 23, 27], [0, 7, 6, 5, 4, 3, 2, 1], 0x7FFFFFFF)
  }

  function Avx2Kernel(bw: nat): Kernel {
    if bw == 1 then BitTest
    else if bw == 2 then BitPairs(false)
    else if bw == 4 then Nibbles(false)
    else if bw == 8 then Widen(8, 1, 32)
    else if bw == 16 then Widen(16, 2, 8)
    else if bw == 32 then Widen(32, 4, 8)
    else if bw == 5 || 20 <= bw <= 25 then GatherU32(bw)
    else if 26 <= bw then GatherU64(bw)
    else if bw <= 12 then NarrowShuffle(bw)
    else WideShuffle(bw)
  }

  /** NEON differs from AVX2 in six widths. */
  function NeonKernel(bw: nat): Kernel {
    if bw == 2 then BitPairs(true)
    else if bw == 4 then Nibbles(true)
    else if bw == 5 then Shuffle16(5, [0, 0, 1, 1, 2, 3, 3, 4], [0, 5, 2, 7, 4, 1, 6, 3], 0x1F)
    else if bw == 12 then Shuffle16(12, [0, 1, 3, 4, 6, 7, 9, 10], [0, 4, 0, 4, 0, 4, 0, 4], 0xFFF)
    else if bw == 20 || bw == 21 then WideShuffle(bw)
    else Avx2Kernel(bw)
  }

  function Width(k: Kernel): nat {
    match k
    case Nibbles(_) => 4
    case BitPairs(_) => 2
    case BitTest => 1
    case _ => k.bw
  }

  function Lanes(k: Kernel): nat {
    match k
    case Widen(_, _, lanes) => lanes
    case Nibbles(_) => 32
    case BitPairs(_) => 32
    case BitTest => 32
    case _ => 8
  }

  /** Bytes by which the source pointer moves per block. */
  function BlockBytes(k: Kernel): nat {
    Lanes(k) / 8 * Width(k)
  }

  /** How far past the block start a block loads. */
  function Extent(k: Kernel): nat {
    match k
    case Shuffle32(_, hiOff, _, _, _, _) => hiOff + 16
    case Shuffle16(_, _, _, _) => 16
    case Gather(_, laneBytes, offsets, _, _) => (if |offsets| == 8 then offsets[7] else 0) + laneBytes
    case Widen(_, laneBytes, lanes) => laneBytes * lanes
    case Nibbles(_) => 16
    case BitPairs(_) => 8
    case BitTest => 4
  }

  // ----- what a table must satisfy -----

  /** Lane `l` reads whole bytes that hold its value: the value starts `shifts[l]` bits into the
      window and ends inside it. */
  predicate LaneOk(k: Kernel, l: nat)
    requires l < 8
  {
    match k
    case Shuffle32(bw, hiOff, shufLo, shufHi, shifts, mask) =>
      && |shifts| == 8 && |shufLo| == 4 && |shufHi| == 4
      && var start := if l < 4 then shufLo[l] else shufHi[l - 4];
      && start + 4 <= 16
      && shifts[l] + bw <= 32
      && 8 * ((if l < 4 then 0 else hiOff) + start) + shifts[l] == l * bw
    case Shuffle16(bw, shuf, shifts, mask) =>
      && |shifts| == 8 && |shuf| == 8
      && shuf[l] + 2 <= 16
      && shifts[l] + bw <= 16
      && 8 * shuf[l] + shifts[l] == l * bw
    case Gather(bw, laneBytes, offsets, shifts, mask) =>
      && |shifts| == 8 && |offsets| == 8
      && shifts[l] + bw <= 8 * laneBytes
      && offsets[l] <= offsets[7]
      && 8 * offsets[l] + shifts[l] == l * bw
    case _ => true
  }

  predicate TableOk(k: Kernel) {
    && 1 <= Width(k) <= 32
    && (k.Shuffle32? || k.Shuffle16? || k.Gather? ==> k.mask == Mask(k.bw))
    && (k.Widen? ==> k.bw == 8 * k.laneBytes && (k.lanes == 8 || k.lanes == 32))
    && LaneOk(k, 0) && LaneOk(k, 1) && LaneOk(k, 2) && LaneOk(k, 3)
    && LaneOk(k, 4) && LaneOk(k, 5) && LaneOk(k, 6) && LaneOk(k, 7)
  }

  lemma MaskLiterals()
    ensures Mask(3) == 0x7 && Mask(5) == 0x1F && Mask(6) == 0x3F && Mask(7) == 0x7F
    ensures Mask(9) == 0x1FF && Mask(10) == 0x3FF && Mask(11) == 0x7FF && Mask(12) == 0xFFF
    ensures Mask(13) == 0x1FFF && Mask(14) == 0x3FFF && Mask(15) == 0x7FFF
    ensures Mask(17) == 0x1FFFF && Mask(18) == 0x3FFFF && Mask(19) == 0x7FFFF && Mask(20) == 0xFFFFF
    ensures Mask(21) == 0x1FFFFF && Mask(22) == 0x3FFFFF && Mask(23) == 0x7FFFFF && Mask(24) == 0xFFFFFF
    ensures Mask(25) == 0x1FFFFFF && Mask(26) == 0x3FFFFFF && Mask(27) == 0x7FFFFFF && Mask(28) == 0xFFFFFFF
    ensures Mask(29) == 0x1FFFFFFF && Mask(30) == 0x3FFFFFFF && Mask(31) == 0x7FFFFFFF
  {
    hide Mask;
    MaskZero();
    MaskByte(0);
    MaskByte(8);
    MaskByte(16);
    forall w: nat | w < 31
      ensures Mask(w + 1) == 2 * Mask(w) + 1
    {
      MaskSucc(w);
    }
    assert Mask(2) == 3 && Mask(3) == 7 && Mask(4) == 15 && Mask(5) == 31 && Mask(6) == 63;
  }

  lemma MaskSucc(w: nat)
    ensures Mask(w + 1) == 2 * Mask(w) + 1
  {
  }

  lemma NarrowShuffleOk(bw: nat)
    requires bw == 3 || bw == 6 || bw == 7 || 9 <= bw <= 12
    ensures TableOk(NarrowShuffle(bw)) && NarrowShuffle(bw).Shuffle32? && NarrowShuffle(bw).bw == bw
  {
    hide Mask;
    MaskLiterals();
  }

  lemma WideShuffleOk(bw: nat)
    requires 13 <= bw <= 15 || 17 <= bw <= 21
    ensures TableOk(WideShuffle(bw)) && WideShuffle(bw).Shuffle32? && WideShuffle(bw).bw == bw
  {
    hide Mask, TableOk, WideShuffle;
    if bw <= 17 {
      WideShuffleTo17Ok(bw);
    } else {
      WideShuffleFrom18Ok(bw);
    }
  }

  lemma WideShuffleTo17Ok(bw: nat)
    requires 13 <= bw <= 15 || bw == 17
    ensures TableOk(WideShuffle(bw)) && WideShuffle(bw).Shuffle32? && WideShuffle(bw).bw == bw
  {
    hide Mask;
    MaskLiterals();
  }

  lemma WideShuffleFrom18Ok(bw: nat)
    requires 18 <= bw <= 21
    ensures TableOk(WideShuffle(bw)) && WideShuffle(bw).Shuffle32? && WideShuffle(bw).bw == bw
  {
    hide Mask;
    MaskLiterals();
  }

  lemma GatherU32Ok(bw: nat)
    requires bw == 5 || 20 <= bw <= 25
    ensures TableOk(GatherU32(bw)) && GatherU32(bw).Gather? && GatherU32(bw).bw == bw && GatherU32(bw).laneBytes == 4
  {
    hide Mask;
    MaskLiterals();
  }

  lemma GatherU64Ok(bw: nat)
    requires 26 <= bw <= 31
    ensures TableOk(GatherU64(bw)) && GatherU64(bw).Gather? && GatherU64(bw).bw == bw && GatherU64(bw).laneBytes == 8
  {
    hide Mask;
    MaskLiterals();
  }

  /** Every table of both instruction sets is right. */
  lemma Avx2TablesOk(bw: nat)
    requires 1 <= bw <= 32
    ensures TableOk(Avx2Kernel(bw)) && Width(Avx2Kernel(bw)) == bw
  {
    hide Mask, NarrowShuffle, WideShuffle, GatherU32, GatherU64;
    if bw == 5 || 20 <= bw <= 25 {
      GatherU32Ok(bw);
    } else if 26 <= bw <= 31 {
      GatherU64Ok(bw);
    } else if bw == 3 || bw == 6 || bw == 7 || 9 <= bw <= 12 {
      NarrowShuffleOk(bw);
    } else if 13 <= bw <= 15 || 17 <= bw <= 19 {
      WideShuffleOk(bw);
    }
  }

  lemma NeonTablesOk(bw: nat)
    requires 1 <= bw <= 32
    ensures TableOk(NeonKernel(bw)) && Width(NeonKernel(bw)) == bw
  {
    hide Mask, Avx2Kernel, WideShuffle;
    MaskLiterals();
    Avx2TablesOk(bw);
    if bw == 20 || bw == 21 {
      WideShuffleOk(bw);
    }
  }

  // ----- one block -----

  lemma LaneOkAll(k: Kernel, l: nat)
    requires TableOk(k) && l < 8
    ensures LaneOk(k, l)
  {
    hide LaneOk;
    var cases := [0, 1, 2, 3, 4, 5, 6, 7];
    assert l == cases[l];
  }

  /** Both ways of shifting the bytes of a register. */
  function ShiftBytes(reg: seq<Byte>, s: nat, byteShift: bool): (r: seq<Byte>)
    requires |reg| % 2 == 0
    ensures |r| == |reg|
  {
    if byteShift then ShrBytes(reg, s) else Srli16(reg, s)
  }

  /** The 32 nibbles of a 16-byte register, low one first. */
  function NibbleBlock(reg: seq<Byte>, byteShift: bool): (r: seq<nat>)
    requires |reg| == 16
    ensures |r| == 32
  {
    var lo := AndBytes(reg, 0x0F);
    var hi := AndBytes(ShiftBytes(reg, 4, byteShift), 0x0F);
    Zip(lo, hi, 0, 8) + Zip(lo, hi, 8, 8)
  }

  /** The 32 two-bit values of 8 bytes: four streams, zipped bytewise and then pairwise. */
  function PairBlock(reg: seq<Byte>, byteShift: bool): (r: seq<nat>)
    requires |reg| == 8
    ensures |r| == 32
  {
    var s0 := AndBytes(reg, 0x03);
    var s1 := AndBytes(ShiftBytes(reg, 2, byteShift), 0x03);
    var s2 := AndBytes(ShiftBytes(reg, 4, byteShift), 0x03);
    var s3 := AndBytes(ShiftBytes(reg, 6, byteShift), 0x03);
    var p01, p23 := Zip(s0, s1, 0, 8), Zip(s2, s3, 0, 8);
    ZipPairs(p01, p23, 0) + ZipPairs(p01, p23, 8)
  }

  function MaskedLane(lane: seq<Byte>, shift: nat, mask: nat, signed: bool): nat
    requires shift < 8 * |lane|
  {
    LeNatBound(lane);
    And(ShiftLane(LeNat(lane), shift, 8 * |lane|, signed), mask)
  }

  /** The value a kernel stores in lane `l` of the block that starts at byte `base`. */
  function LaneValue(k: Kernel, signed: bool, mem: seq<Byte>, base: nat, l: nat): nat
    requires TableOk(k) && l < Lanes(k) && base + Extent(k) <= |mem|
  {
    match k
    case Shuffle32(bw, hiOff, shufLo, shufHi, shifts, mask) =>
      LaneOkAll(k, l);
      var lane := if l < 4 then ShuffleLane(Load(mem, base, 16), shufLo[l], 4)
                  else ShuffleLane(Load(mem, base + hiOff, 16), shufHi[l - 4], 4);
      MaskedLane(lane, shifts[l], mask, signed)
    case Shuffle16(bw, shuf, shifts, mask) =>
      LaneOkAll(k, l);
      MaskedLane(ShuffleLane(Load(mem, base, 16), shuf[l], 2), shifts[l], mask, signed)
    case Gather(bw, laneBytes, offsets, shifts, mask) =>
      LaneOkAll(k, l);
      MaskedLane(Load(mem, base + offsets[l], laneBytes), shifts[l], mask, signed)
    case Widen(bw, laneBytes, lanes) =>
      WidenInside(l, laneBytes, lanes);
      LeNat(Load(mem, base + l * laneBytes, laneBytes))
    case Nibbles(byteShift) => NibbleBlock(Load(mem, base, 16), byteShift)[l]
    case BitPairs(byteShift) => PairBlock(Load(mem, base, 8), byteShift)[l]
    case BitTest =>
      var bit := Up(1, l % 8);
      if And(mem[base + l / 8], bit) == bit then 1 else 0
  }

  lemma WidenInside(l: nat, laneBytes: nat, lanes: nat)
    requires l < lanes
    ensures l * laneBytes + laneBytes <= laneBytes * lanes
  {
    MulInterval(l, lanes, laneBytes);
  }

  /** A logically or arithmetically shifted window, masked, is the bit field it holds: the sign
      bits of an arithmetic shift land above the mask because the field ends inside the lane. */
  lemma WindowLane(mem: seq<Byte>, at: nat, size: nat, shift: nat, bw: nat, signed: bool)
    requires at + size <= |mem| && shift + bw <= 8 * size && bw > 0
    ensures MaskedLane(mem[at..at + size], shift, Mask(bw), signed) == BitField(mem, 8 * at + shift, bw)
  {
    hide BitField, And, Shr, Low, Asr, FromSigned, ToSigned, Mask, LeNat;
    var lane := mem[at..at + size];
    var x := LeNat(lane);
    LeNatBound(lane);
    LeNatIsField(lane);
    BitFieldSlice(mem, at, at + size, 0, 8 * size);
    WindowField(mem, 8 * at, 8 * size, shift, bw);
    AsrLane(x, 8 * size, shift);
    AndMask(Shr(x, shift), bw);
    AndMask(ShiftLane(x, shift, 8 * size, signed), bw);
    LowIgnoresHigh(Shr(x, shift), Mask(shift), 8 * size - shift, bw);
  }

  /** The same inside one byte. */
  lemma ByteWindow(mem: seq<Byte>, at: nat, shift: nat, bw: nat)
    requires at < |mem| && shift + bw <= 8
    ensures And(Shr(mem[at], shift), Mask(bw)) == BitField(mem, 8 * at + shift, bw)
  {
    hide BitField, And, Shr, Mask;
    BitFieldByte(mem, at);
    WindowField(mem, 8 * at, 8, shift, bw);
  }

  /** The byte of a shifted 16-bit word agrees with the byte's own shift on the bits below `8 - s`. */
  lemma Srli16Mask(b0: Byte, b1: Byte, s: nat, high: bool, w: nat)
    requires s + w <= 8
    ensures And(Srli16Byte(b0, b1, s, high), Mask(w)) == And(Shr(if high then b1 else b0, s), Mask(w))
  {
    hide And, Shr, Low, Up, Mask;
    var word := Shr(b0 + 256 * b1, s);
    UpByte(b1);
    ShrSum(b0, b1, 8, s);
    ShrByteBound(b0, s);
    ShrByteBound(b1, s);
    var h := Up(b1, 8 - s);
    assert word == Shr(b0, s) + h;
    Srli16Parts(b0, b1, s);
    AndMask(Srli16Byte(b0, b1, s, high), w);
    AndMask(Shr(if high then b1 else b0, s), w);
    if !high {
      LowIgnoresHigh(Shr(b0, s) , b1, 8 - s, w);
      var q := word / 256;
      UpByte(q);
      LowIgnoresHigh(word % 256, q, 8, w);
    }
  }

  lemma ShrByteBound(b: Byte, s: nat)
    requires s <= 8
    ensures Shr(b, s) <= Mask(8 - s) <= 255
  {
    hide Mask, Shr;
    MaskZero();
    MaskByte(0);
    ShrBound(b, s, 8 - s);
    MaskMono(8 - s, 8);
  }

  lemma Srli16Parts(b0: Byte, b1: Byte, s: nat)
    requires s <= 8
    ensures Shr(b0 + 256 * b1, s) < 0x1_0000
    ensures Shr(b0 + 256 * b1, s) / 256 == Shr(b1, s)
  {
    hide Mask, Shr, Up;
    var word := Shr(b0 + 256 * b1, s);
    ShrAdd(b0 + 256 * b1, s, 8);
    ShrAdd(b0 + 256 * b1, 8, s);
    UpByte(b1);
    MaskZero();
    MaskByte(0);
    ShrSplit(b0, b1, 8);
    ShrByte(word);
    ShrByteBound(b1, s);
  }

  /** A window picked from a 16-byte register by a shuffle. */
  lemma ShuffledWindow(mem: seq<Byte>, at: nat, start: nat, size: nat, shift: nat, bw: nat, signed: bool)
    requires at + 16 <= |mem| && start + size <= 16 && shift + bw <= 8 * size && bw > 0
    ensures MaskedLane(ShuffleLane(Load(mem, at, 16), start, size), shift, Mask(bw), signed)
         == BitField(mem, 8 * (at + start) + shift, bw)
  {
    hide BitField, Mask, MaskedLane;
    assert ShuffleLane(Load(mem, at, 16), start, size) == mem[at + start..at + start + size];
    WindowLane(mem, at + start, size, shift, bw, signed);
  }

  lemma Shuffle32Lane(k: Kernel, signed: bool, mem: seq<Byte>, base: nat, l: nat)
    requires k.Shuffle32? && TableOk(k) && l < 8 && base + Extent(k) <= |mem|
    ensures LaneValue(k, signed, mem, base, l) == BitField(mem, 8 * base + l * k.bw, k.bw)
  {
    hide BitField, Mask, MaskedLane, ShuffleLane, TableOk, LaneOk;
    LaneOkAll(k, l);
    Shuffle32Ok(k, l);
    TableMask(k);
    if l < 4 {
      ShuffledWindow(mem, base, k.shufLo[l], 4, k.shifts[l], k.bw, signed);
    } else {
      ShuffledWindow(mem, base + k.hiOff, k.shufHi[l - 4], 4, k.shifts[l], k.bw, signed);
    }
  }

  lemma Shuffle32Ok(k: Kernel, l: nat)
    requires k.Shuffle32? && l < 8 && LaneOk(k, l)
    ensures |k.shifts| == 8 && |k.shufLo| == 4 && |k.shufHi| == 4
    ensures var start := if l < 4 then k.shufLo[l] else k.hiOff + k.shufHi[l - 4];
            8 * start + k.shifts[l] == l * k.bw && k.shifts[l] + k.bw <= 32
    ensures if l < 4 then k.shufLo[l] + 4 <= 16 else k.shufHi[l - 4] + 4 <= 16
  {
  }

  lemma TableMask(k: Kernel)
    requires TableOk(k) && (k.Shuffle32? || k.Shuffle16? || k.Gather?)
    ensures k.mask == Mask(k.bw) && k.bw > 0
  {
    hide Mask;
  }

  lemma Shuffle16Lane(k: Kernel, signed: bool, mem: seq<Byte>, base: nat, l: nat)
    requires k.Shuffle16? && TableOk(k) && l < 8 && base + Extent(k) <= |mem|
    ensures LaneValue(k, signed, mem, base, l) == BitField(mem, 8 * base + l * k.bw, k.bw)
  {
    hide BitField, Mask, MaskedLane, ShuffleLane, TableOk;
    LaneOkAll(k, l);
    TableMask(k);
    ShuffledWindow(mem, base, k.shuf[l], 2, k.shifts[l], k.bw, signed);
  }

  lemma GatherLane(k: Kernel, signed: bool, mem: seq<Byte>, base: nat, l: nat)
    requires k.Gather? && TableOk(k) && l < 8 && base + Extent(k) <= |mem|
    ensures LaneValue(k, signed, mem, base, l) == BitField(mem, 8 * base + l * k.bw, k.bw)
  {
    hide BitField, Mask, MaskedLane, TableOk;
    LaneOkAll(k, l);
    TableMask(k);
    WindowLane(mem, base + k.offsets[l], k.laneBytes, k.shifts[l], k.bw, signed);
  }

  lemma WidenLane(k: Kernel, signed: bool, mem: seq<Byte>, base: nat, l: nat)
    requires k.Widen? && TableOk(k) && l < k.lanes && base + Extent(k) <= |mem|
    ensures LaneValue(k, signed, mem, base, l) == BitField(mem, 8 * base + l * k.bw, k.bw)
  {
    hide BitField, LeNat;
    WidenInside(l, k.laneBytes, k.lanes);
    var at := base + l * k.laneBytes;
    LeNatIsField(mem[at..at + k.laneBytes]);
    BitFieldSlice(mem, at, at + k.laneBytes, 0, k.bw);
    assert l * k.bw == 8 * (l * k.laneBytes);
  }

  /** Each lane of each kernel holds its positional value. */
  lemma LaneCorrect(k: Kernel, signed: bool, mem: seq<Byte>, base: nat, l: nat)
    requires TableOk(k) && l < Lanes(k) && base + Extent(k) <= |mem|
    ensures LaneValue(k, signed, mem, base, l) == BitField(mem, 8 * base + l * Width(k), Width(k))
  {
    hide BitField, And, Up, LeNat, NibbleBlock, PairBlock, LaneOk;
    match k
    case Shuffle32(_, _, _, _, _, _) => Shuffle32Lane(k, signed, mem, base, l);
    case Shuffle16(_, _, _, _) => Shuffle16Lane(k, signed, mem, base, l);
    case Gather(_, _, _, _, _) => GatherLane(k, signed, mem, base, l);
    case Widen(_, _, _) => WidenLane(k, signed, mem, base, l);
    case Nibbles(byteShift) => NibbleLane(mem, base, l, byteShift);
    case BitPairs(byteShift) => PairLane(mem, base, l, byteShift);
    case BitTest => BitLane(mem, base + l / 8, l % 8);
  }

  /** The nibble that lands in lane `l`. */
  lemma NibbleAt(reg: seq<Byte>, byteShift: bool, l: nat)
    requires |reg| == 16 && l < 32
    ensures NibbleBlock(reg, byteShift)[l]
         == And(if l % 2 == 0 then reg[l / 2] else ShiftBytes(reg, 4, byteShift)[l / 2], 0x0F)
  {
    hide And, AndBytes, ShiftBytes, Zip;
    var lo, hi := AndBytes(reg, 0x0F), AndBytes(ShiftBytes(reg, 4, byteShift), 0x0F);
    if l < 16 {
      ZipAt(lo, hi, 0, 8, l);
    } else {
      ZipAt(lo, hi, 8, 8, l - 16);
    }
    AndBytesAt(reg, 0x0F, l / 2);
    AndBytesAt(ShiftBytes(reg, 4, byteShift), 0x0F, l / 2);
  }

  /** The zipped half that lane `l` comes from. */
  lemma PairHalf(reg: seq<Byte>, byteShift: bool, l: nat)
    requires |reg| == 8 && l < 32
    ensures var s0, s1 := AndBytes(reg, 0x03), AndBytes(ShiftBytes(reg, 2, byteShift), 0x03);
            var s2, s3 := AndBytes(ShiftBytes(reg, 4, byteShift), 0x03), AndBytes(ShiftBytes(reg, 6, byteShift), 0x03);
            PairBlock(reg, byteShift)[l] == (if l % 4 < 2 then Zip(s0, s1, 0, 8) else Zip(s2, s3, 0, 8))[2 * (l / 4) + l % 2]
  {
    hide And, AndBytes, ShiftBytes, Zip, ZipPairs;
    var p01 := Zip(AndBytes(reg, 0x03), AndBytes(ShiftBytes(reg, 2, byteShift), 0x03), 0, 8);
    var p23 := Zip(AndBytes(ShiftBytes(reg, 4, byteShift), 0x03), AndBytes(ShiftBytes(reg, 6, byteShift), 0x03), 0, 8);
    if l < 16 {
      ZipPairsAt(p01, p23, 0, l);
    } else {
      ZipPairsAt(p01, p23, 8, l - 16);
    }
  }

  /** The bit pair that lands in lane `l`. */
  lemma PairAt(reg: seq<Byte>, byteShift: bool, l: nat)
    requires |reg| == 8 && l < 32
    ensures PairBlock(reg, byteShift)[l]
         == And(if l % 4 == 0 then reg[l / 4] else ShiftBytes(reg, 2 * (l % 4), byteShift)[l / 4], 0x03)
  {
    hide And, AndBytes, ShiftBytes, Zip, ZipPairs, PairBlock;
    PairHalf(reg, byteShift, l);
    var i := 2 * (l / 4) + l % 2;
    if l % 4 < 2 {
      ZipAt(AndBytes(reg, 0x03), AndBytes(ShiftBytes(reg, 2, byteShift), 0x03), 0, 8, i);
      AndBytesAt(reg, 0x03, l / 4);
      AndBytesAt(ShiftBytes(reg, 2, byteShift), 0x03, l / 4);
    } else {
      var s4, s6 := ShiftBytes(reg, 4, byteShift), ShiftBytes(reg, 6, byteShift);
      ZipAt(AndBytes(s4, 0x03), AndBytes(s6, 0x03), 0, 8, i);
      AndBytesAt(s4, 0x03, l / 4);
      AndBytesAt(s6, 0x03, l / 4);
    }
  }

  lemma ShiftedByte(reg: seq<Byte>, i: nat, s: nat, byteShift: bool, w: nat)
    requires |reg| % 2 == 0 && i < |reg| && s + w <= 8
    ensures And(ShiftBytes(reg, s, byteShift)[i], Mask(w)) == And(Shr(reg[i], s), Mask(w))
  {
    hide And, Shr, Mask, Srli16Byte, ShrBytes, Srli16;
    ShiftedAt(reg, s, i);
    if byteShift {
      ShrByteBound(reg[i], s);
    } else {
      Srli16Mask(reg[i / 2 * 2], reg[i / 2 * 2 + 1], s, i % 2 == 1, w);
    }
  }

  lemma NibbleLane(mem: seq<Byte>, base: nat, l: nat, byteShift: bool)
    requires base + 16 <= |mem| && l < 32
    ensures NibbleBlock(mem[base..base + 16], byteShift)[l] == BitField(mem, 8 * base + 4 * l, 4)
  {
    hide BitField, And, Shr, Mask, NibbleBlock, ShiftBytes;
    var reg := mem[base..base + 16];
    NibbleAt(reg, byteShift, l);
    ShiftedByte(reg, l / 2, 4, byteShift, 4);
    MaskNibbles();
    ByteWindow(mem, base + l / 2, 4 * (l % 2), 4);
    ShrZero(reg[l / 2]);
    assert 8 * (base + l / 2) + 4 * (l % 2) == 8 * base + 4 * l;
  }

  lemma PairLane(mem: seq<Byte>, base: nat, l: nat, byteShift: bool)
    requires base + 8 <= |mem| && l < 32
    ensures PairBlock(mem[base..base + 8], byteShift)[l] == BitField(mem, 8 * base + 2 * l, 2)
  {
    hide BitField, And, Shr, Mask, PairBlock, ShiftBytes;
    var reg := mem[base..base + 8];
    PairAt(reg, byteShift, l);
    ShiftedByte(reg, l / 4, 2 * (l % 4), byteShift, 2);
    MaskNibbles();
    ByteWindow(mem, base + l / 4, 2 * (l % 4), 2);
    ShrZero(reg[l / 4]);
    assert 8 * (base + l / 4) + 2 * (l % 4) == 8 * base + 2 * l;
  }

  lemma MaskNibbles()
    ensures Mask(2) == 0x03 && Mask(4) == 0x0F
  {
  }

  lemma BitLane(mem: seq<Byte>, at: nat, j: nat)
    requires at < |mem| && j < 8
    ensures (if And(mem[at], Up(1, j)) == Up(1, j) then 1 else 0) == BitField(mem, 8 * at + j, 1)
  {
    AndBit(mem[at], j);
    UpNonZero(j);
    assert (8 * at + j) / 8 == at && (8 * at + j) % 8 == j;
    assert BitField(mem, 8 * at + j, 1) == Bit(mem, 8 * at + j);
  }

  // ----- the driver: full blocks by kernel, the rest by the streaming buffer -----

  lemma LanesTimesWidth(k: Kernel)
    requires TableOk(k)
    ensures Lanes(k) == 8 || Lanes(k) == 32
    ensures Span(Lanes(k), Width(k)) == 8 * BlockBytes(k) && 1 <= Width(k) <= 32
  {
    SpanIsProduct(Lanes(k), Width(k));
  }

  /** All lanes of one block. */
  method RunBlock(k: Kernel, signed: bool, mem: seq<Byte>, base: nat, out0: seq<nat>) returns (out: seq<nat>)
    requires TableOk(k) && base + Extent(k) <= |mem|
    ensures out == out0 + Fields(mem, 8 * base, Lanes(k), Width(k))
  {
    hide TableOk, LaneOk, Lanes, Width, Extent, Fields, LaneValue;
    out := out0;
    for l := 0 to Lanes(k)
      invariant out + Fields(mem, 8 * base + l * Width(k), Lanes(k) - l, Width(k))
             == out0 + Fields(mem, 8 * base, Lanes(k), Width(k))
    {
      LaneCorrect(k, signed, mem, base, l);
      FieldsUnfold(mem, 8 * base + l * Width(k), Lanes(k) - l, Width(k));
      assert 8 * base + l * Width(k) + Width(k) == 8 * base + (l + 1) * Width(k);
      out := out + [LaneValue(k, signed, mem, base, l)];
    }
    FieldsUnfold(mem, 8 * base + Lanes(k) * Width(k), 0, Width(k));
  }

  /** The `blocks` full blocks; every load stays inside `mem`. */
  method RunKernel(k: Kernel, signed: bool, mem: seq<Byte>, blocks: nat, out0: seq<nat>) returns (out: seq<nat>)
    requires TableOk(k)
    requires blocks > 0 ==> (blocks - 1) * BlockBytes(k) + Extent(k) <= |mem|
    ensures out == out0 + Unpacked(mem, blocks * Lanes(k), Width(k))
  {
    hide TableOk, Lanes, Width, Extent, Fields, BlockBytes;
    out := out0;
    var base := 0;
    for blk := 0 to blocks
      invariant base == blk * BlockBytes(k)
      invariant out + Fields(mem, 8 * base, (blocks - blk) * Lanes(k), Width(k))
             == out0 + Unpacked(mem, blocks * Lanes(k), Width(k))
    {
      BlockStep(k, mem, base, blocks - blk - 1);
      BlockInside(blk, blocks, BlockBytes(k), Extent(k), |mem|);
      out := RunBlock(k, signed, mem, base, out);
      base := base + BlockBytes(k);
    }
    FieldsUnfold(mem, 8 * base, 0, Width(k));
  }

  lemma BlockInside(blk: nat, blocks: nat, stride: nat, extent: nat, len: nat)
    requires blk < blocks && (blocks - 1) * stride + extent <= len
    ensures blk * stride + extent <= len && (blk + 1) * stride == blk * stride + stride
  {
    assert (blocks - 1) * stride == blk * stride + (blocks - 1 - blk) * stride;
  }

  lemma BlockStep(k: Kernel, mem: seq<Byte>, base: nat, rest: nat)
    requires TableOk(k)
    ensures Fields(mem, 8 * base, (rest + 1) * Lanes(k), Width(k))
         == Fields(mem, 8 * base, Lanes(k), Width(k))
          + Fields(mem, 8 * (base + BlockBytes(k)), rest * Lanes(k), Width(k))
  {
    hide TableOk, Lanes, Width, Fields, BlockBytes;
    LanesTimesWidth(k);
    assert (rest + 1) * Lanes(k) == Lanes(k) + rest * Lanes(k);
    FieldsSplit(mem, 8 * base, Lanes(k), rest * Lanes(k), Width(k));
  }

  /** `mem` is the packed buffer of length `len` and whatever lies behind it: `safe` blocks through
      the kernel, then the streaming buffer from byte `processed * bw / 8` of the packed buffer. */
  method VectorThenScalar(k: Kernel, signed: bool, mem: seq<Byte>, len: nat, safe: nat, n: nat, out0: seq<nat>)
    returns (out: seq<nat>)
    requires TableOk(k) && len <= |mem| && n * Width(k) <= 8 * len
    requires safe * Lanes(k) <= n
    requires safe > 0 ==> (safe - 1) * BlockBytes(k) + Extent(k) <= |mem|
    ensures out == out0 + Unpacked(mem[..len], n, Width(k))
  {
    hide TableOk, Lanes, Width, Extent, Fields, BlockBytes, Unpacked, Span, TailStart;
    out := RunKernel(k, signed, mem, safe, out0);
    var bw, processed := Width(k), safe * Lanes(k);
    var lo := TailStart(processed, bw);
    SeamAfterBlocks(k, mem[..len], mem, safe, n, processed, lo, bw);
    out := StreamUnpack(mem[..len][lo..], n - processed, bw, 64, out);
  }

  /** `processed * bw / 8`. */
  function TailStart(processed: nat, bw: nat): nat {
    processed * bw / 8
  }

  lemma SeamAfterBlocks(k: Kernel, packed: seq<Byte>, mem: seq<Byte>, safe: nat, n: nat, processed: nat, lo: nat, bw: nat)
    requires TableOk(k) && packed <= mem && n * bw <= 8 * |packed| && bw == Width(k)
    requires processed == safe * Lanes(k) <= n && lo == TailStart(processed, bw)
    ensures 1 <= bw <= 32 && lo <= |packed| && (n - processed) * bw <= 8 * (|packed| - lo)
    ensures Unpacked(mem, processed, bw) + Unpacked(packed[lo..], n - processed, bw) == Unpacked(packed, n, bw)
  {
    hide TableOk, Lanes, Width, Unpacked, BlockBytes, Span;
    LanesTimesWidth(k);
    BlockBits(safe, Lanes(k), bw, BlockBytes(k));
    SplitBits(n, processed, bw);
    SeamAt(packed, mem, lo, processed, n - processed, bw);
  }

  lemma BlockBits(safe: nat, lanes: nat, bw: nat, stride: nat)
    requires Span(lanes, bw) == 8 * stride
    ensures safe * lanes * bw == 8 * (safe * stride)
  {
    hide Span;
    SpanIsProduct(lanes, bw);
    assert safe * lanes * bw == safe * (lanes * bw);
  }

  lemma SplitBits(n: nat, processed: nat, bw: nat)
    requires processed <= n
    ensures n * bw == processed * bw + (n - processed) * bw
  {
  }

  /** `done` values before byte `lo` and `rest` after it, over a buffer `mem` that extends `packed`. */
  lemma SeamAt(packed: seq<Byte>, mem: seq<Byte>, lo: nat, done: nat, rest: nat, bw: nat)
    requires packed <= mem && done * bw == 8 * lo && 8 * lo + rest * bw <= 8 * |packed|
    ensures Unpacked(mem, done, bw) + Unpacked(packed[lo..], rest, bw) == Unpacked(packed, done + rest, bw)
  {
    hide Fields, Span;
    SpanIsProduct(done, bw);
    SpanIsProduct(rest, bw);
    FieldsPrefix(packed, mem, 0, done, bw);
    FieldsSplit(packed, 0, done, rest, bw);
    FieldsSlice(packed, lo, |packed|, 0, rest, bw);
    assert packed[lo..|packed|] == packed[lo..];
  }

  // ----- guards: how many full blocks are safe to load -----

  datatype Guard =
    | NoOverrun                  // blocks load exactly what they consume
    | DropLast(extent: nat)      // keep the last block only if `extent` bytes are there for it
    | Floor(slack: nat)          // (len - slack) / stride blocks, none under 16 bytes

  function SafeBlocks(g: Guard, stride: nat, len: nat, fullBlocks: nat): nat
    requires stride > 0 && (g.Floor? ==> g.slack <= 16)
  {
    match g
    case NoOverrun => fullBlocks
    case DropLast(extent) =>
      if fullBlocks == 0 then 0
      else if len >= stride * (fullBlocks - 1) + extent then fullBlocks else fullBlocks - 1
    case Floor(slack) => if len < 16 then 0 else Min((len - slack) / stride, fullBlocks)
  }

  function Avx2Guard(bw: nat): Guard
    requires 1 <= bw <= 32
  {
    if bw == 1 || bw == 2 || bw == 4 || bw == 8 || bw == 16 || bw == 32 then NoOverrun
    else if bw == 3 || bw == 6 || bw == 7 || 9 <= bw <= 11 || bw == 13 then Floor(16 - bw)
    else if bw == 5 then DropLast(8)
    else if bw == 12 || bw == 14 then DropLast(16)
    else if bw == 15 || bw == 17 || bw == 18 then DropLast(24)
    else if bw == 19 then DropLast(25)
    else if bw == 20 then DropLast(26)
    else if bw == 21 then DropLast(22)
    else DropLast(Extent(Avx2Kernel(bw)))
  }

  function NeonGuard(bw: nat): Guard
    requires 1 <= bw <= 32
  {
    if bw == 5 then DropLast(16) else Avx2Guard(bw)
  }

  /** Block `b` loads readable bytes only, of which there are `size`. */
  predicate BlockReads(k: Kernel, b: nat, size: nat) {
    b * BlockBytes(k) + Extent(k) <= size
  }

  /** So does every block the guard keeps of `fullBlocks` in `len` packed bytes. */
  predicate LoadsInside(g: Guard, k: Kernel, fullBlocks: nat, len: nat, size: nat)
    requires BlockBytes(k) > 0 && (g.Floor? ==> g.slack <= 16)
  {
    hide BlockBytes, BlockReads, SafeBlocks;
    forall b :: 0 <= b < SafeBlocks(g, BlockBytes(k), len, fullBlocks) ==> BlockReads(k, b, size)
  }

  /** The last block decides. */
  lemma LastBlockReads(g: Guard, k: Kernel, fullBlocks: nat, len: nat, size: nat)
    requires BlockBytes(k) > 0 && (g.Floor? ==> g.slack <= 16)
    ensures var safe := SafeBlocks(g, BlockBytes(k), len, fullBlocks);
            LoadsInside(g, k, fullBlocks, len, size) <==> (safe > 0 ==> BlockReads(k, safe - 1, size))
  {
    hide Extent, BlockBytes, SafeBlocks;
    var safe := SafeBlocks(g, BlockBytes(k), len, fullBlocks);
    if safe > 0 && BlockReads(k, safe - 1, size) {
      forall b | 0 <= b < safe
        ensures BlockReads(k, b, size)
      {
        BlockInside(b, safe, BlockBytes(k), Extent(k), size);
      }
    }
  }

  /** A guard fits a kernel when the last block it keeps ends inside the packed buffer: for
      `DropLast`, either way the check goes. */
  predicate GuardFits(g: Guard, k: Kernel) {
    match g
    case NoOverrun => Extent(k) <= BlockBytes(k)
    case DropLast(extent) => Extent(k) <= extent && Extent(k) <= 2 * BlockBytes(k)
    case Floor(slack) => Extent(k) == 16 && Lanes(k) == 8 && slack + BlockBytes(k) == 16
  }

  lemma GuardIsSafe(g: Guard, k: Kernel, len: nat, fullBlocks: nat)
    requires GuardFits(g, k) && BlockBytes(k) > 0 && fullBlocks * BlockBytes(k) <= len
    ensures g.Floor? ==> g.slack <= 16
    ensures var safe := SafeBlocks(g, BlockBytes(k), len, fullBlocks);
            safe <= fullBlocks && (safe > 0 ==> (safe - 1) * BlockBytes(k) + Extent(k) <= len)
  {
    hide Extent, BlockBytes, Lanes;
    var stride := BlockBytes(k);
    match g
    case NoOverrun =>
      if fullBlocks > 0 {
        BlockInside(fullBlocks - 1, fullBlocks, stride, 0, fullBlocks * stride);
      }
    case DropLast(extent) =>
      if fullBlocks > 0 && len < stride * (fullBlocks - 1) + extent && fullBlocks > 1 {
        assert fullBlocks * stride == (fullBlocks - 2) * stride + 2 * stride;
      }
    case Floor(slack) =>
      if len >= 16 {
        FloorBlocks(len - slack, stride, Min((len - slack) / stride, fullBlocks));
      }
  }

  lemma GuardedLoads(g: Guard, k: Kernel, len: nat, fullBlocks: nat)
    requires GuardFits(g, k) && BlockBytes(k) > 0 && fullBlocks * BlockBytes(k) <= len
    ensures g.Floor? ==> g.slack <= 16
    ensures LoadsInside(g, k, fullBlocks, len, len)
  {
    hide Extent, BlockBytes, LoadsInside, GuardFits, SafeBlocks;
    GuardIsSafe(g, k, len, fullBlocks);
    LastBlockReads(g, k, fullBlocks, len, len);
  }

  lemma SafeAtMost(g: Guard, stride: nat, len: nat, fullBlocks: nat)
    requires stride > 0 && (g.Floor? ==> g.slack <= 16)
    ensures SafeBlocks(g, stride, len, fullBlocks) <= fullBlocks
  {
  }

  lemma FloorBlocks(x: nat, stride: nat, safe: int)
    requires stride > 0 && safe <= x / stride
    ensures safe > 0 ==> (safe - 1) * stride + stride <= x
  {
    if safe > 0 {
      assert x == x / stride * stride + x % stride;
      assert (x / stride - safe) * stride >= 0;
      assert safe * stride <= x / stride * stride;
    }
  }

  function WideExtent(bw: nat): nat {
    if bw <= 14 then 16 else if bw == 15 || bw == 18 then 23
    else if bw == 17 then 24 else if bw == 19 then 25 else 26
  }

  lemma ShuffleExtents(bw: nat)
    ensures Extent(NarrowShuffle(bw)) == 16
    ensures 13 <= bw <= 15 || 17 <= bw <= 21 ==> Extent(WideShuffle(bw)) == WideExtent(bw)
  {
  }

  lemma GatherExtents(bw: nat)
    ensures bw == 5 ==> Extent(GatherU32(bw)) == 8
    ensures bw == 20 ==> Extent(GatherU32(bw)) == 21
    ensures bw == 21 ==> Extent(GatherU32(bw)) == 22
    ensures 22 <= bw <= 25 ==> Extent(GatherU32(bw)) <= 25
    ensures 26 <= bw <= 31 ==> Extent(GatherU64(bw)) <= 35
  {
  }

  lemma Avx2GuardFits(bw: nat)
    requires 1 <= bw <= 32
    ensures GuardFits(Avx2Guard(bw), Avx2Kernel(bw))
  {
    hide TableOk, NarrowShuffle, WideShuffle, GatherU32, GatherU64, GuardFits;
    if bw == 5 || 20 <= bw <= 25 {
      GatherU32GuardFits(bw);
    } else if 26 <= bw <= 31 {
      GatherU64GuardFits(bw);
    } else if bw == 3 || bw == 6 || bw == 7 || 9 <= bw <= 15 || 17 <= bw <= 19 {
      ShuffleGuardFits(bw);
    } else {
      WholeGuardFits(bw);
    }
  }

  /** Widths whose blocks load just what they consume. */
  lemma WholeGuardFits(bw: nat)
    requires bw == 1 || bw == 2 || bw == 4 || bw == 8 || bw == 16 || bw == 32
    ensures GuardFits(Avx2Guard(bw), Avx2Kernel(bw))
  {
    hide TableOk, NarrowShuffle, WideShuffle, GatherU32, GatherU64;
  }

  lemma ShuffleGuardFits(bw: nat)
    requires bw == 3 || bw == 6 || bw == 7 || 9 <= bw <= 15 || 17 <= bw <= 19
    ensures GuardFits(Avx2Guard(bw), Avx2Kernel(bw))
  {
    hide TableOk, NarrowShuffle, WideShuffle, GatherU32, GatherU64;
    ShuffleExtents(bw);
    if bw <= 12 {
      NarrowShuffleOk(bw);
    } else {
      WideShuffleOk(bw);
    }
  }

  lemma GatherU32GuardFits(bw: nat)
    requires bw == 5 || 20 <= bw <= 25
    ensures GuardFits(Avx2Guard(bw), Avx2Kernel(bw))
  {
    hide TableOk, NarrowShuffle, WideShuffle, GatherU32, GatherU64;
    GatherExtents(bw);
    GatherU32Ok(bw);
  }

  lemma GatherU64GuardFits(bw: nat)
    requires 26 <= bw <= 31
    ensures GuardFits(Avx2Guard(bw), Avx2Kernel(bw))
  {
    hide TableOk, NarrowShuffle, WideShuffle, GatherU32, GatherU64;
    GatherExtents(bw);
    GatherU64Ok(bw);
  }

  lemma NeonGuardFits(bw: nat)
    requires 1 <= bw <= 32 && bw != 5 && bw != 21
    ensures GuardFits(NeonGuard(bw), NeonKernel(bw))
  {
    hide TableOk, WideShuffle;
    ShuffleExtents(bw);
    if bw == 20 {
      WideShuffleOk(bw);
    } else if bw != 2 && bw != 4 && bw != 12 {
      hide Avx2Kernel, Avx2Guard;
      Avx2GuardFits(bw);
    }
  }

  /** At widths 5 and 21 the NEON guards keep blocks whose registers load past the packed buffer.
      Widths 5 and 21 have 5-byte and 21-byte blocks that load 16 and 26 bytes. */
  predicate NeonReadable(bw: nat, n: nat, len: nat, size: nat) {
    if bw == 5 then n < 16 || size >= 5 * (n / 8) + 6
    else if bw == 21 then n < 8 || len < 21 * (n / 8) + 1 || size >= 21 * (n / 8) + 5
    else true
  }

  /** That is exactly when every NEON load stays inside the `size` readable bytes of which the packed
      buffer is the first `len`; with nothing readable behind the buffer, `size == len`. */
  lemma NeonLoadsExactly(bw: nat, n: nat, len: nat, size: nat)
    requires 1 <= bw <= 32 && n * bw <= 8 * len && len <= size
    ensures TableOk(NeonKernel(bw)) && Lanes(NeonKernel(bw)) > 0 && BlockBytes(NeonKernel(bw)) > 0
    ensures NeonGuard(bw).Floor? ==> NeonGuard(bw).slack <= 16
    ensures LoadsInside(NeonGuard(bw), NeonKernel(bw), n / Lanes(NeonKernel(bw)), len, size) <==> NeonReadable(bw, n, len, size)
  {
    hide TableOk, LoadsInside, NeonKernel, NeonGuard, Lanes, BlockBytes, NeonReadable, GuardFits;
    var k := NeonKernel(bw);
    NeonTablesOk(bw);
    BlocksInside(k, n, len);
    if bw == 5 {
      NeonLoadsAt5(n, len, size);
    } else if bw == 21 {
      NeonLoadsAt21(n, len, size);
    } else {
      NeonGuardFits(bw);
      GuardedLoads(NeonGuard(bw), k, len, n / Lanes(k));
      LoadsMono(NeonGuard(bw), k, n / Lanes(k), len, size);
      NeonElsewhere(bw, n, len, size);
    }
  }

  lemma BlocksInside(k: Kernel, n: nat, len: nat)
    requires TableOk(k) && n * Width(k) <= 8 * len
    ensures Lanes(k) > 0 && BlockBytes(k) > 0
    ensures n / Lanes(k) * BlockBytes(k) <= len && n / Lanes(k) * Lanes(k) <= n
  {
    hide TableOk;
    LanesTimesWidth(k);
    FullBlocksInside(n, Width(k), Lanes(k), len);
  }

  lemma NeonElsewhere(bw: nat, n: nat, len: nat, size: nat)
    requires bw != 5 && bw != 21
    ensures NeonReadable(bw, n, len, size)
  {
  }

  lemma NeonLoadsAt5(n: nat, len: nat, size: nat)
    requires n * 5 <= 8 * len && len <= size
    ensures Lanes(NeonKernel(5)) == 8 && BlockBytes(NeonKernel(5)) == 5 && NeonGuard(5) == DropLast(16)
    ensures LoadsInside(NeonGuard(5), NeonKernel(5), n / 8, len, size) <==> NeonReadable(5, n, len, size)
  {
    hide LoadsInside;
    assert Extent(NeonKernel(5)) == 16;
    LastBlockReads(NeonGuard(5), NeonKernel(5), n / 8, len, size);
  }

  lemma NeonLoadsAt21(n: nat, len: nat, size: nat)
    requires n * 21 <= 8 * len && len <= size
    ensures Lanes(NeonKernel(21)) == 8 && BlockBytes(NeonKernel(21)) == 21 && NeonGuard(21) == DropLast(22)
    ensures LoadsInside(NeonGuard(21), NeonKernel(21), n / 8, len, size) <==> NeonReadable(21, n, len, size)
  {
    hide LoadsInside, TableOk;
    WideShuffleOk(21);
    ShuffleExtents(21);
    assert NeonKernel(21) == WideShuffle(21) && Extent(NeonKernel(21)) == 26;
    hide WideShuffle;
    LastBlockReads(NeonGuard(21), NeonKernel(21), n / 8, len, size);
  }

  lemma LoadsMono(g: Guard, k: Kernel, fullBlocks: nat, len: nat, size: nat)
    requires BlockBytes(k) > 0 && (g.Floor? ==> g.slack <= 16)
    requires LoadsInside(g, k, fullBlocks, len, len) && len <= size
    ensures LoadsInside(g, k, fullBlocks, len, size)
  {
    hide Extent, BlockBytes, SafeBlocks;
    forall b | 0 <= b < SafeBlocks(g, BlockBytes(k), len, fullBlocks)
      ensures BlockReads(k, b, size)
    {
      assert BlockReads(k, b, len);
    }
  }

  /** Sixteen 5-bit values in 10 bytes: the guard keeps the first block, which loads to byte 16. Eight
      21-bit values in a 22-byte buffer: the block loads to byte 26. */
  lemma NeonOverreads()
    ensures var g, k := NeonGuard(5), NeonKernel(5);
            SafeBlocks(g, BlockBytes(k), 10, 16 / Lanes(k)) == 1 && 16 * 5 <= 8 * 10 && Extent(k) == 16 && !BlockReads(k, 0, 10)
    ensures var g, k := NeonGuard(21), NeonKernel(21);
            SafeBlocks(g, BlockBytes(k), 22, 8 / Lanes(k)) == 1 && 8 * 21 <= 8 * 22 && Extent(k) == 26 && !BlockReads(k, 0, 22)
  {
    ShuffleExtents(21);
    assert NeonKernel(5).Shuffle16? && NeonKernel(21).Shuffle32?;
  }

  lemma FullBlocksInside(n: nat, bw: nat, lanes: nat, len: nat)
    requires lanes == 8 || lanes == 32
    requires n * bw <= 8 * len
    ensures n / lanes * (lanes / 8 * bw) <= len && n / lanes * lanes <= n
  {
    assert n / lanes * lanes * bw <= n * bw;
  }

  // ----- entry points -----

  /** `unpack_indices_into_avx2_bw1` to `_bw32`. */
  method UnpackIndicesAvx2(packed: seq<Byte>, n: nat, bw: nat, out0: seq<nat>)
    returns (r: Outcome, out: seq<nat>)
    requires 1 <= bw <= 32
    ensures r == if |packed| < CeilDiv8(n * bw) then Fail(Decompress) else Pass
    ensures out == if r.Pass? then out0 + Unpacked(packed, n, bw) else out0
  {
    hide TableOk, Lanes, Width, Extent, Fields, BlockBytes, Avx2Kernel, Avx2Guard, GuardFits, SafeBlocks, LoadsInside;
    if n == 0 {
      FieldsUnfold(packed, 0, 0, bw);
      return Pass, out0;
    }
    if |packed| < CeilDiv8(n * bw) {
      return Fail(Decompress), out0;
    }
    var k := Avx2Kernel(bw);
    Avx2TablesOk(bw);
    Avx2GuardFits(bw);
    BlocksInside(k, n, |packed|);
    GuardedLoads(Avx2Guard(bw), k, |packed|, n / Lanes(k));
    out := GuardedUnpack(k, false, Avx2Guard(bw), packed, |packed|, n, out0);
    assert packed[..|packed|] == packed;
    return Pass, out;
  }

  /** `unpack_indices_into_neon_bw1` to `_bw32`: the packed buffer is `mem[..len]`, and every load has
      to stay inside `mem`. */
  method UnpackIndicesNeon(mem: seq<Byte>, len: nat, n: nat, bw: nat, out0: seq<nat>)
    returns (r: Outcome, out: seq<nat>)
    requires 1 <= bw <= 32 && len <= |mem| && (n * bw <= 8 * len ==> NeonReadable(bw, n, len, |mem|))
    ensures r == if len < CeilDiv8(n * bw) then Fail(Decompress) else Pass
    ensures out == if r.Pass? then out0 + Unpacked(mem[..len], n, bw) else out0
  {
    hide TableOk, Lanes, Width, Extent, Fields, BlockBytes, NeonKernel, NeonGuard, GuardFits, SafeBlocks, LoadsInside, NeonReadable;
    if n == 0 {
      FieldsUnfold(mem[..len], 0, 0, bw);
      return Pass, out0;
    }
    if len < CeilDiv8(n * bw) {
      return Fail(Decompress), out0;
    }
    NeonTablesOk(bw);
    NeonLoadsExactly(bw, n, len, |mem|);
    out := GuardedUnpack(NeonKernel(bw), true, NeonGuard(bw), mem, len, n, out0);
    return Pass, out;
  }

  lemma KeptBlocks(g: Guard, k: Kernel, n: nat, len: nat, size: nat, fullBlocks: nat)
    requires BlockBytes(k) > 0 && (g.Floor? ==> g.slack <= 16)
    requires fullBlocks * Lanes(k) <= n && LoadsInside(g, k, fullBlocks, len, size)
    ensures var safe := SafeBlocks(g, BlockBytes(k), len, fullBlocks);
            safe * Lanes(k) <= n && (safe > 0 ==> (safe - 1) * BlockBytes(k) + Extent(k) <= size)
  {
    hide Lanes, Extent, BlockBytes, LoadsInside, SafeBlocks;
    var safe := SafeBlocks(g, BlockBytes(k), len, fullBlocks);
    SafeAtMost(g, BlockBytes(k), len, fullBlocks);
    LastBlockReads(g, k, fullBlocks, len, size);
    assert safe * Lanes(k) <= fullBlocks * Lanes(k);
  }

  /** As many blocks as the guard keeps, then the streaming buffer. */
  method GuardedUnpack(k: Kernel, signed: bool, g: Guard, mem: seq<Byte>, len: nat, n: nat, out0: seq<nat>)
    returns (out: seq<nat>)
    requires TableOk(k) && Lanes(k) > 0 && BlockBytes(k) > 0 && (g.Floor? ==> g.slack <= 16)
    requires len <= |mem| && n * Width(k) <= 8 * len && LoadsInside(g, k, n / Lanes(k), len, |mem|)
    ensures out == out0 + Unpacked(mem[..len], n, Width(k))
  {
    hide TableOk, Lanes, Width, Extent, Fields, LoadsInside, SafeBlocks, Unpacked, BlockBytes;
    BlocksInside(k, n, len);
    var fullBlocks := n / Lanes(k);
    var safe := SafeBlocks(g, BlockBytes(k), len, fullBlocks);
    KeptBlocks(g, k, n, len, |mem|, fullBlocks);
    out := VectorThenScalar(k, signed, mem, len, safe, n, out0);
  }
}
