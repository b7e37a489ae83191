/** The split-block Bloom filter (Apache Parquet BloomFilter.md, section "Technical Approach"): 32-byte
    blocks of eight 32-bit words; a hash sets, and tests, one bit in each word of one block. */
module Bloom {
  import opened Bits
  import opened Bitmaps

  function Salt(i: nat): nat
    requires i < 8
  {
    [0x47b6137b, 0x44974d91, 0x8824ad5b, 0xa2b7289d, 0x705495c7, 0x2df1424b, 0x9efc4947, 0x5c6bfb31][i]
  }

  /** `((h >> 32) * num_blocks) >> 32`. */
  function BlockIndex(h: nat, numBlocks: nat): nat {
    h / U32_MODULUS * numBlocks / U32_MODULUS
  }

  /** `(h as u32).wrapping_mul(SALT[i]) >> 27`. */
  function MaskBit(h: nat, i: nat): (r: nat)
    requires i < 8
    ensures r < 32
  {
    h % U32_MODULUS * Salt(i) % U32_MODULUS / 0x800_0000
  }

  /** The bit in word `i` is the top five bits of the 32-bit product of the hash's low half with the
      word's salt. */
  lemma MaskBitMeaning(h: nat, i: nat)
    requires i < 8
    ensures var salts := [0x47b6137b, 0x44974d91, 0x8824ad5b, 0xa2b7289d, 0x705495c7, 0x2df1424b, 0x9efc4947, 0x5c6bfb31];
            var product := h % 0x1_0000_0000 * salts[i] % 0x1_0000_0000;
            0x800_0000 * MaskBit(h, i) <= product < 0x800_0000 * (MaskBit(h, i) + 1)
  {
    var product := h % U32_MODULUS * Salt(i) % U32_MODULUS;
    Quotient(product, 0x800_0000);
  }

  /** The block is the hash's high half scaled to the number of blocks. */
  lemma BlockIndexMeaning(h: nat, numBlocks: nat)
    ensures var scaled := h / 0x1_0000_0000 * numBlocks;
            0x1_0000_0000 * BlockIndex(h, numBlocks) <= scaled < 0x1_0000_0000 * (BlockIndex(h, numBlocks) + 1)
  {
    Quotient(h / U32_MODULUS * numBlocks, U32_MODULUS);
  }

  lemma Quotient(x: nat, m: nat)
    requires m > 0
    ensures m * (x / m) <= x < m * (x / m + 1)
  {
  }

  /** The multiply-shift stays below the number of blocks. */
  lemma BlockIndexInRange(h: nat, numBlocks: nat)
    requires h < U64_MODULUS && numBlocks > 0
    ensures BlockIndex(h, numBlocks) < numBlocks
  {
    ProductBound(h / U32_MODULUS, numBlocks);
  }

  lemma ProductBound(hi: nat, n: nat)
    requires hi < U32_MODULUS && n > 0
    ensures hi * n < U32_MODULUS * n
  {
  }

  /** The bits of the whole bitset that a hash stands for: one in each word of its block. */
  predicate Hits(h: nat, numBlocks: nat, k: nat) {
    k / 256 == BlockIndex(h, numBlocks) && k % 32 == MaskBit(h, k / 32 % 8)
  }

  /** A bitset holds exactly the bits of the hashes inserted. */
  ghost predicate Reflects(bitset: seq<Byte>, numBlocks: nat, hashes: set<nat>) {
    && |bitset| == 32 * numBlocks
    && forall k :: 0 <= k < 256 * numBlocks ==> (Bit(bitset, k) == 1 <==> exists h :: h in hashes && Hits(h, numBlocks, k))
  }

  // ----- 32-bit words in a byte string -----

  lemma {:induction false} ShrByteAt(x: nat, j: nat)
    requires j < 8
    ensures Shr(x % 256, j) % 2 == Shr(x, j) % 2
  {
    hide Shr, Low, Mask, Up;
    UpByte(x / 256);
    ShrSum(x % 256, x / 256, 8, j);
    UpEven(x / 256, 8 - j);
  }

  lemma UpEven(x: nat, s: nat)
    requires s > 0
    ensures Up(x, s) % 2 == 0
  {
  }

  lemma {:induction false} LeBytesBit(x: nat, n: nat, k: nat)
    requires k < 8 * n
    ensures Bit(LeBytes(x, n), k) == Shr(x, k) % 2
    decreases n
  {
    hide Shr;
    if k < 8 {
      ShrByteAt(x, k);
    } else {
      LeBytesBit(x / 256, n - 1, k - 8);
      ShrByte(x);
      ShrAdd(x, 8, k - 8);
      assert k / 8 - 1 == (k - 8) / 8;
    }
  }

  lemma LeNatBit(p: seq<Byte>, k: nat)
    requires k < 8 * |p|
    ensures Shr(LeNat(p), k) % 2 == Bit(p, k)
  {
    hide Shr, Bit, LeNat;
    LeNatIsField(p);
    BitFieldLowHigh(p, 0, k, 8 * |p|);
    FieldParity(p, k, 8 * |p| - k);
  }

  lemma FieldParity(p: seq<Byte>, s: nat, w: nat)
    requires w > 0
    ensures BitField(p, s, w) % 2 == Bit(p, s)
  {
    hide Bit;
  }

  /** `word |= 1 << j`, written back as four little-endian bytes, sets one bit. */
  lemma SetWordBit(word: seq<Byte>, j: nat)
    requires |word| == 4 && j < 32
    ensures var next := LeBytes(Or(LeNat(word), Shl(1, j, 32)), 4);
            forall k :: 0 <= k < 32 ==> Bit(next, k) == if k == j then 1 else Bit(word, k)
  {
    hide Shr, Up, Or, Mask, Shl, Bit, LeNat, LeBytes;
    MaskOne();
    MaskMono(1, 32 - j);
    ShlFits(1, 1, j, 32);
    var x := Or(LeNat(word), Up(1, j));
    forall k | 0 <= k < 32
      ensures Bit(LeBytes(x, 4), k) == if k == j then 1 else Bit(word, k)
    {
      LeBytesBit(x, 4, k);
      ShrOr(LeNat(word), Up(1, j), k);
      OrParity(Shr(LeNat(word), k), Shr(Up(1, j), k));
      BitOfShifted(1, j, k);
      LeNatBit(word, k);
    }
  }

  lemma MaskOne()
    ensures Mask(1) == 1
  {
  }

  /** The same inside the bitset: word `w` of the block string. */
  lemma SetBitsetBit(bitset: seq<Byte>, off: nat, j: nat)
    requires off + 4 <= |bitset| && j < 32
    ensures var word := LeBytes(Or(LeNat(bitset[off..off + 4]), Shl(1, j, 32)), 4);
            BitsOf(bitset[..off] + word + bitset[off + 4..]) == BitsOf(bitset)[8 * off + j := 1]
  {
    hide Bit, Or, Shl, LeNat, LeBytes;
    var old4 := bitset[off..off + 4];
    var word := LeBytes(Or(LeNat(old4), Shl(1, j, 32)), 4);
    SetWordBit(old4, j);
    BitsConcat(bitset[..off] + word, bitset[off + 4..]);
    BitsConcat(bitset[..off], word);
    BitsConcat(bitset[..off] + old4, bitset[off + 4..]);
    BitsConcat(bitset[..off], old4);
    assert bitset == bitset[..off] + old4 + bitset[off + 4..];
    forall k | 0 <= k < 32
      ensures BitsOf(word)[k] == BitsOf(old4)[j := 1][k]
    {
      assert Bit(word, k) == if k == j then 1 else Bit(old4, k);
    }
    assert BitsOf(word) == BitsOf(old4)[j := 1];
  }

  // ----- the builder -----

  class Builder {
    var bitset: seq<Byte>
    const numBlocks: nat
    ghost var hashes: set<nat>

    ghost predicate Valid()
      reads this
    {
      numBlocks < U32_MODULUS && Reflects(bitset, numBlocks, hashes)
    }

    /** `SplitBlockBloomFilterBuilder::new`. */
    constructor (numBlocks: nat)
      requires numBlocks < U32_MODULUS
      ensures Valid() && this.numBlocks == numBlocks && hashes == {}
    {
      this.numBlocks := numBlocks;
      bitset := seq(32 * numBlocks, _ => 0);
      hashes := {};
      new;
      EmptyReflects(numBlocks);
    }

    /** `insert_hash`; with no blocks there is nothing to record. */
    method InsertHash(h: nat)
      requires Valid() && h < U64_MODULUS
      modifies this
      ensures Valid()
      ensures hashes == old(hashes) + {h}
    {
      hide Reflects, BlockIndex, MaskBit, BitsOf, Or, Shl, LeNat, LeBytes;
      hashes := hashes + {h};
      if numBlocks == 0 {
        NoBlocks(bitset, old(hashes), h);
        return;
      }
      BlockIndexInRange(h, numBlocks);
      var blockOff := BlockIndex(h, numBlocks) * 32;
      ReflectsLength(bitset, numBlocks, old(hashes));
      ghost var before := bitset;
      for i := 0 to 8
        invariant |bitset| == 32 * numBlocks && hashes == old(hashes) + {h}
        invariant BitsOf(bitset) == Marked(BitsOf(before), 8 * blockOff, h, i)
      {
        var wordOff := blockOff + i * 4;
        var word := LeNat(bitset[wordOff..wordOff + 4]);
        SetBitsetBit(bitset, wordOff, MaskBit(h, i));
        word := Or(word, Shl(1, MaskBit(h, i), 32));
        bitset := bitset[..wordOff] + LeBytes(word, 4) + bitset[wordOff + 4..];
      }
      InsertReflects(before, bitset, numBlocks, old(hashes), h);
    }
  }

  /** The bits from `base` on with those of the first `n` words set. */
  function Marked(bits: seq<nat>, base: nat, h: nat, n: nat): (r: seq<nat>)
    requires n <= 8 && base + 256 <= |bits|
    ensures |r| == |bits|
  {
    if n == 0 then bits else Marked(bits, base, h, n - 1)[base + 32 * (n - 1) + MaskBit(h, n - 1) := 1]
  }

  lemma {:induction false} MarkedAt(bits: seq<nat>, base: nat, h: nat, n: nat, k: nat)
    requires n <= 8 && base + 256 <= |bits| && k < |bits|
    ensures Marked(bits, base, h, n)[k]
         == if base <= k < base + 32 * n && (k - base) % 32 == MaskBit(h, (k - base) / 32) then 1 else bits[k]
    decreases n
  {
    hide MaskBit;
    if n > 0 {
      MarkedAt(bits, base, h, n - 1, k);
    }
  }

  lemma EmptyReflects(numBlocks: nat)
    ensures Reflects(seq(32 * numBlocks, _ => 0), numBlocks, {})
  {
    hide Hits;
    var z: seq<Byte> := seq(32 * numBlocks, _ => 0);
    ZeroBytes(32 * numBlocks);
    assert forall k :: 0 <= k < 256 * numBlocks ==> Bit(z, k) == BitsOf(z)[k];
  }

  lemma NoBlocks(bitset: seq<Byte>, hashes: set<nat>, h: nat)
    requires Reflects(bitset, 0, hashes)
    ensures Reflects(bitset, 0, hashes + {h})
  {
  }

  lemma ReflectsLength(bitset: seq<Byte>, numBlocks: nat, hashes: set<nat>)
    requires Reflects(bitset, numBlocks, hashes)
    ensures |bitset| == 32 * numBlocks
  {
  }

  lemma InsertReflects(before: seq<Byte>, after: seq<Byte>, numBlocks: nat, hashes: set<nat>, h: nat)
    requires Reflects(before, numBlocks, hashes) && |after| == 32 * numBlocks && BlockIndex(h, numBlocks) < numBlocks
    requires BitsOf(after) == Marked(BitsOf(before), 256 * BlockIndex(h, numBlocks), h, 8)
    ensures Reflects(after, numBlocks, hashes + {h})
  {
    hide BlockIndex, MaskBit, Bit, Hits;
    forall k | 0 <= k < 256 * numBlocks
      ensures Bit(after, k) == 1 <==> exists g :: g in hashes + {h} && Hits(g, numBlocks, k)
    {
      MarkedAt(BitsOf(before), 256 * BlockIndex(h, numBlocks), h, 8, k);
      InsideBlock(k, BlockIndex(h, numBlocks));
      HitsMeaning(h, numBlocks, k);
      assert Bit(after, k) == BitsOf(after)[k] && Bit(before, k) == BitsOf(before)[k];
      assert Bit(after, k) == if Hits(h, numBlocks, k) then 1 else Bit(before, k);
      if Hits(h, numBlocks, k) {
        assert h in hashes + {h};
      }
      assert forall g :: g in hashes + {h} <==> g in hashes || g == h;
    }
  }

  lemma HitsMeaning(h: nat, numBlocks: nat, k: nat)
    ensures Hits(h, numBlocks, k) <==> k / 256 == BlockIndex(h, numBlocks) && k % 32 == MaskBit(h, k / 32 % 8)
  {
  }

  lemma InsideBlock(k: nat, b: nat)
    ensures 256 * b <= k < 256 * b + 256 <==> k / 256 == b
    ensures k / 256 == b ==> (k - 256 * b) % 32 == k % 32 && (k - 256 * b) / 32 == k / 32 % 8
  {
    if k / 256 == b {
      var r := k - 256 * b;
      Divided(k, 8 * b + r / 32, r % 32);
    }
  }

  // ----- membership -----

  /** The bit that word `i` is tested for. */
  function TestedBit(h: nat, numBlocks: nat, i: nat): nat
    requires i < 8
  {
    256 * BlockIndex(h, numBlocks) + 32 * i + MaskBit(h, i)
  }

  /** `word & (1 << j) == 0`. */
  lemma WordTest(word: seq<Byte>, j: nat)
    requires |word| == 4 && j < 32
    ensures And(LeNat(word), Shl(1, j, 32)) == 0 <==> Bit(word, j) == 0
  {
    hide Shr, Up, And, Mask, Shl, Bit, LeNat;
    MaskOne();
    MaskMono(1, 32 - j);
    ShlFits(1, 1, j, 32);
    AndBit(LeNat(word), j);
    LeNatBit(word, j);
    UpNonZero(j);
    UpNonZeroOfBit(Bit(word, j), j);
  }

  lemma UpNonZeroOfBit(b: nat, j: nat)
    requires b <= 1
    ensures Up(b, j) == 0 <==> b == 0
  {
    UpNonZero(j);
  }

  lemma SubSlice(s: seq<Byte>, a: nat, n: nat, b: nat, m: nat)
    requires a + n <= |s| && b + m <= n
    ensures s[a..a + n][b..b + m] == s[a + b..a + b + m]
  {
    var x, y := s[a..a + n][b..b + m], s[a + b..a + b + m];
    forall i | 0 <= i < m
      ensures x[i] == y[i]
    {
      assert x[i] == s[a..a + n][b + i] == s[a + (b + i)];
    }
  }

  lemma WordInBitset(bitset: seq<Byte>, off: nat, j: nat)
    requires off + 4 <= |bitset| && j < 32
    ensures Bit(bitset[off..off + 4], j) == Bit(bitset, 8 * off + j)
  {
    hide Shr;
    assert (8 * off + j) / 8 == off + j / 8 && (8 * off + j) % 8 == j % 8;
  }

  /** `contains_hash` on a bitset of whole blocks. */
  method ContainsHash(bitset: seq<Byte>, h: nat) returns (r: bool)
    requires |bitset| % 32 == 0 && |bitset| / 32 < U32_MODULUS && h < U64_MODULUS
    ensures r <==> |bitset| > 0 && forall i :: 0 <= i < 8 ==> Bit(bitset, TestedBit(h, |bitset| / 32, i)) == 1
    ensures r <==> Contains(bitset, |bitset| / 32, h)
  {
    hide BlockIndex, MaskBit, And, Shl, LeNat, Bit;
    var numBlocks := |bitset| / 32;
    if numBlocks == 0 {
      return false;
    }
    BlockIndexInRange(h, numBlocks);
    var blockOff := BlockIndex(h, numBlocks) * 32;
    var block := bitset[blockOff..blockOff + 32];
    for i := 0 to 8
      invariant forall m :: 0 <= m < i ==> Bit(bitset, TestedBit(h, numBlocks, m)) == 1
    {
      var maskBit := MaskBit(h, i);
      var wordOff := i * 4;
      SubSlice(bitset, blockOff, 32, wordOff, 4);
      WordTest(block[wordOff..wordOff + 4], maskBit);
      WordInBitset(bitset, blockOff + wordOff, maskBit);
      assert 8 * (blockOff + wordOff) + maskBit == TestedBit(h, numBlocks, i);
      if And(LeNat(block[wordOff..wordOff + 4]), Shl(1, maskBit, 32)) == 0 {
        return false;
      }
    }
    return true;
  }

  /** What membership means: for each of the eight words some inserted hash chose the same block and
      the same bit. */
  ghost predicate Contains(bitset: seq<Byte>, numBlocks: nat, h: nat) {
    numBlocks > 0 && forall i :: 0 <= i < 8 ==> Bit(bitset, TestedBit(h, numBlocks, i)) == 1
  }

  predicate SameBit(g: nat, h: nat, numBlocks: nat, i: nat)
    requires i < 8
  {
    BlockIndex(g, numBlocks) == BlockIndex(h, numBlocks) && MaskBit(g, i) == MaskBit(h, i)
  }

  /** Some inserted hash chose the bit that `h` tests in word `i`. */
  ghost predicate Shared(hashes: set<nat>, h: nat, numBlocks: nat, i: nat)
    requires i < 8
  {
    exists g :: g in hashes && SameBit(g, h, numBlocks, i)
  }

  lemma TestedBitHit(g: nat, h: nat, numBlocks: nat, i: nat)
    requires i < 8
    ensures Hits(g, numBlocks, TestedBit(h, numBlocks, i)) <==> SameBit(g, h, numBlocks, i)
  {
    hide BlockIndex, MaskBit;
    TestedBitParts(BlockIndex(h, numBlocks), i, MaskBit(h, i));
  }

  lemma TestedBitParts(b: nat, i: nat, m: nat)
    requires i < 8 && m < 32
    ensures var k := 256 * b + 32 * i + m;
            k / 256 == b && k / 32 % 8 == i && k % 32 == m
  {
    var k := 256 * b + 32 * i + m;
    Divided(k, 8 * b + i, m);
    var q := 8 * b + i;
    assert q % 8 == i;
    DividedBlock(k, b, 32 * i + m);
  }

  lemma Divided(k: nat, q: nat, m: nat)
    requires k == 32 * q + m && m < 32
    ensures k / 32 == q && k % 32 == m
  {
  }

  lemma DividedBlock(k: nat, b: nat, r: nat)
    requires k == 256 * b + r && r < 256
    ensures k / 256 == b
  {
  }

  /** Exactness. */
  lemma ContainsExactly(bitset: seq<Byte>, numBlocks: nat, hashes: set<nat>, h: nat)
    requires Reflects(bitset, numBlocks, hashes) && h < U64_MODULUS && numBlocks > 0
    ensures Contains(bitset, numBlocks, h)
       <==> forall i :: 0 <= i < 8 ==> Shared(hashes, h, numBlocks, i)
  {
    hide BlockIndex, MaskBit, Bit, Hits, Shared;
    BlockIndexInRange(h, numBlocks);
    forall i | 0 <= i < 8
      ensures Bit(bitset, TestedBit(h, numBlocks, i)) == 1 <==> Shared(hashes, h, numBlocks, i)
    {
      OneWord(bitset, numBlocks, hashes, h, i);
    }
  }

  /** A filter without blocks contains nothing. */
  lemma EmptyContainsNothing(h: nat)
    ensures !Contains([], 0, h)
  {
  }

  lemma OneWord(bitset: seq<Byte>, numBlocks: nat, hashes: set<nat>, h: nat, i: nat)
    requires Reflects(bitset, numBlocks, hashes) && BlockIndex(h, numBlocks) < numBlocks && i < 8
    ensures Bit(bitset, TestedBit(h, numBlocks, i)) == 1 <==> Shared(hashes, h, numBlocks, i)
  {
    hide BlockIndex, MaskBit, Bit, Hits, SameBit;
    var k := TestedBit(h, numBlocks, i);
    forall g | g in hashes
      ensures Hits(g, numBlocks, k) <==> SameBit(g, h, numBlocks, i)
    {
      TestedBitHit(g, h, numBlocks, i);
    }
    assert 0 <= k < 256 * numBlocks;
  }

  /** No false negatives. */
  lemma InsertedIsContained(bitset: seq<Byte>, numBlocks: nat, hashes: set<nat>, h: nat)
    requires Reflects(bitset, numBlocks, hashes) && h in hashes && h < U64_MODULUS && numBlocks > 0
    ensures Contains(bitset, numBlocks, h)
  {
    hide BlockIndex, MaskBit, Reflects, Contains;
    ContainsExactly(bitset, numBlocks, hashes, h);
    forall i | 0 <= i < 8
      ensures Shared(hashes, h, numBlocks, i)
    {
      assert SameBit(h, h, numBlocks, i);
    }
  }

  /** One block after hash 1: the bits are the top five bits of the salts themselves. */
  lemma FilterOfOne(bitset: seq<Byte>)
    requires Reflects(bitset, 1, {1})
    ensures forall k :: 0 <= k < 256 ==> (Bit(bitset, k) == 1 <==> k in {8, 40, 81, 116, 142, 165, 211, 235})
  {
    hide Bit;
    forall k | 0 <= k < 256
      ensures Bit(bitset, k) == 1 <==> k in {8, 40, 81, 116, 142, 165, 211, 235}
    {
      assert (exists h :: h in {1} && Hits(h, 1, k)) <==> Hits(1, 1, k) by {
        assert 1 in {1};
      }
      BitsOfOne(k);
    }
  }

  lemma BitsOfOne(k: nat)
    requires k < 256
    ensures Hits(1, 1, k) <==> k in {8, 40, 81, 116, 142, 165, 211, 235}
  {
    assert MaskBit(1, 0) == 8 && MaskBit(1, 1) == 8 && MaskBit(1, 2) == 17 && MaskBit(1, 3) == 20;
    assert MaskBit(1, 4) == 14 && MaskBit(1, 5) == 5 && MaskBit(1, 6) == 19 && MaskBit(1, 7) == 11;
    assert BlockIndex(1, 1) == 0;
    hide MaskBit, BlockIndex;
    var word := k / 32;
    assert k == 32 * word + k % 32 && word < 8 && word % 8 == word;
  }

  /** One block after hash 0 does not hold 32: word 0 is tested at bit 30, and only bit 0 is set. */
  lemma ZeroIsNotThirtyTwo(bitset: seq<Byte>)
    requires Reflects(bitset, 1, {0})
    ensures TestedBit(32, 1, 0) == 30 && Bit(bitset, 30) != 1 && !Contains(bitset, 1, 32)
  {
    hide Bit;
    assert MaskBit(32, 0) == 30 && MaskBit(0, 0) == 0 && BlockIndex(32, 1) == 0;
    hide MaskBit, BlockIndex;
    assert !Hits(0, 1, 30);
    assert Bit(bitset, TestedBit(32, 1, 0)) != 1;
  }

  /** The bitset depends only on which hashes were inserted, not on their order or repetition. */
  lemma OrderIndependent(a: seq<Byte>, b: seq<Byte>, numBlocks: nat, hashes: set<nat>)
    requires Reflects(a, numBlocks, hashes) && Reflects(b, numBlocks, hashes)
    ensures a == b
  {
    hide Bit, Hits;
    forall k | 0 <= k < 256 * numBlocks
      ensures BitsOf(a)[k] == BitsOf(b)[k]
    {
      BitIsBinary(a, k);
      BitIsBinary(b, k);
    }
    BitsInjective(a, b);
  }

  lemma BitIsBinary(p: seq<Byte>, k: nat)
    ensures Bit(p, k) == 0 || Bit(p, k) == 1
  {
    hide Shr;
  }
}
