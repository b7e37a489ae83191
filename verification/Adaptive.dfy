/** The adaptive runner of a dictionary-encoded column chunk: probe some pages with the fused
    predicate decoder, then return either the bitmap or the surviving values. The floating-point
    comparison that decides is an arbitrary Boolean here. */
module Adaptive {
  import opened Bits
  import opened Bitmaps
  import opened Wire
  import opened Bitpack
  import opened DictStream
  import opened DictDecode
  import opened Gather
  import opened PredicateBitmap

  datatype Page = Page(body: seq<Byte>, n: nat)

  datatype ChunkOutput<T> =
    | Bitmap(bitmap: seq<Byte>, setBits: nat)
    | Values(values: seq<T>)

  /** `AdaptiveChunkOutput`; `fused` is its dispatch. */
  datatype AdaptiveOutput<T> = AdaptiveOutput(fused: bool, totalRows: nat, kind: ChunkOutput<T>)

  function TotalRows(pages: seq<Page>): nat {
    if pages == [] then 0 else pages[0].n + TotalRows(pages[1..])
  }

  // ----- the reference: all indices of the chunk, then the predicate -----

  function ChunkIndices(pages: seq<Page>): Result<seq<nat>> {
    if pages == [] then Ok([])
    else
      var idx :- PageIndices(pages[0].body, pages[0].n);
      Prepend(idx, ChunkIndices(pages[1..]))
  }

  /** The page counts add up to the rows decoded, and to nothing only if every page is empty. */
  lemma {:induction false} TotalRowsMeaning(pages: seq<Page>)
    ensures TotalRows(pages) == 0 <==> forall k :: 0 <= k < |pages| ==> pages[k].n == 0
    ensures ChunkIndices(pages).Ok? ==> TotalRows(pages) == |ChunkIndices(pages).value|
  {
    hide PageIndices;
    if pages != [] {
      TotalRowsMeaning(pages[1..]);
      if TotalRows(pages) == 0 {
        forall k | 0 <= k < |pages|
          ensures pages[k].n == 0
        {
          assert k > 0 ==> pages[k] == pages[1..][k - 1];
        }
      } else if pages[0].n == 0 {
        var k :| 0 <= k < |pages[1..]| && pages[1..][k].n != 0;
        assert pages[k + 1].n != 0;
      }
    }
  }

  /** The dictionary values of the rows whose mask entry is set, in row order. */
  function Matching<T>(dict: seq<T>, mask: seq<Byte>, idx: seq<nat>): seq<T>
  {
    if idx == [] then []
    else (if MaskAt(mask, idx[0]) != 0 && idx[0] < |dict| then [dict[idx[0]]] else []) + Matching(dict, mask, idx[1..])
  }

  function Sum(bits: seq<nat>): nat {
    if bits == [] then 0 else bits[0] + Sum(bits[1..])
  }

  // ----- what the two output shapes are -----

  function Padded(bits: seq<nat>): seq<nat> {
    bits + Zeros(8 * CeilDiv8(|bits|) - |bits|)
  }

  /** The page bitmaps one after another, each padded to whole bytes. */
  function ChunkBitmap(pages: seq<Page>, mask: seq<Byte>): Result<seq<nat>> {
    if pages == [] then Ok([])
    else
      var bits :- PageBits(pages[0].body, mask, pages[0].n);
      Prepend(Padded(bits), ChunkBitmap(pages[1..], mask))
  }

  /** The values at the rows whose bit is set. */
  function Kept<T>(values: seq<T>, bits: seq<nat>): seq<T>
    requires |values| == |bits|
  {
    if bits == [] then [] else (if bits[0] != 0 then [values[0]] else []) + Kept(values[1..], bits[1..])
  }

  lemma PageValuesLength<T>(body: seq<Byte>, dict: seq<T>, n: nat)
    requires PageValues(body, dict, n).Ok?
    ensures |PageValues(body, dict, n).value| == n
  {
    hide PageValues, PageIndices, LookupAll;
    PageFusedIsTwoPass(body, dict, n);
    LookupAllMeaning(dict, PageIndices(body, n).value);
  }

  /** The kept values of one page. */
  function PageKept<T>(page: Page, dict: seq<T>, mask: seq<Byte>): Result<seq<T>> {
    var values :- PageValues(page.body, dict, page.n);
    var bits :- PageBits(page.body, mask, page.n);
    PageValuesLength(page.body, dict, page.n);
    Ok(Kept(values, bits))
  }

  function ChunkValues<T>(pages: seq<Page>, dict: seq<T>, mask: seq<Byte>): Result<seq<T>> {
    if pages == [] then Ok([])
    else
      var kept :- PageKept(pages[0], dict, mask);
      Prepend(kept, ChunkValues(pages[1..], dict, mask))
  }

  // ----- both shapes say the same -----

  lemma {:induction false} SumAppend(a: seq<nat>, b: seq<nat>)
    ensures Sum(a + b) == Sum(a) + Sum(b)
  {
    if a == [] {
      assert a + b == b;
    } else {
      assert (a + b)[1..] == a[1..] + b;
      SumAppend(a[1..], b);
    }
  }

  lemma {:induction false} SumZeros(n: nat)
    ensures Sum(Zeros(n)) == 0
  {
    if n > 0 {
      assert Zeros(n)[1..] == Zeros(n - 1);
      SumZeros(n - 1);
    }
  }

  lemma {:induction false} MatchingAppend<T>(dict: seq<T>, mask: seq<Byte>, a: seq<nat>, b: seq<nat>)
    ensures Matching(dict, mask, a + b) == Matching(dict, mask, a) + Matching(dict, mask, b)
  {
    if a == [] {
      assert a + b == b;
    } else {
      assert (a + b)[1..] == a[1..] + b;
      MatchingAppend(dict, mask, a[1..], b);
    }
  }

  /** As many values match as mask bits are set. */
  lemma {:induction false} MatchingCount<T>(dict: seq<T>, mask: seq<Byte>, idx: seq<nat>)
    requires ZeroOne(mask) && forall k :: 0 <= k < |idx| ==> idx[k] < |dict|
    ensures |Matching(dict, mask, idx)| == Sum(MaskBits(mask, idx))
  {
    if idx != [] {
      assert MaskBits(mask, idx)[1..] == MaskBits(mask, idx[1..]);
      MatchingCount(dict, mask, idx[1..]);
    }
  }

  /** Keeping the looked-up values by the mask bits of their indices. */
  lemma {:induction false} KeptIsMatching<T>(dict: seq<T>, mask: seq<Byte>, idx: seq<nat>)
    requires LookupAll(dict, idx).Ok?
    ensures forall k :: 0 <= k < |idx| ==> idx[k] < |dict|
    ensures |LookupAll(dict, idx).value| == |idx|
    ensures Kept(LookupAll(dict, idx).value, MaskBits(mask, idx)) == Matching(dict, mask, idx)
  {
    LookupAllMeaning(dict, idx);
    if idx != [] {
      KeptIsMatching(dict, mask, idx[1..]);
      assert MaskBits(mask, idx)[1..] == MaskBits(mask, idx[1..]);
      assert LookupAll(dict, idx).value[1..] == LookupAll(dict, idx[1..]).value;
    }
  }

  lemma PageKeptIsMatching<T>(page: Page, dict: seq<T>, mask: seq<Byte>)
    requires PageKept(page, dict, mask).Ok?
    ensures PageIndices(page.body, page.n).Ok?
    ensures var idx := PageIndices(page.body, page.n).value;
            && (forall k :: 0 <= k < |idx| ==> idx[k] < |dict|)
            && PageKept(page, dict, mask).value == Matching(dict, mask, idx)
  {
    hide PageValues, PageIndices, PageBits, LookupAll, MaskBits, Matching;
    PageFusedIsTwoPass(page.body, dict, page.n);
    FusedBitsAreMaskedIndices(page.body, mask, page.n);
    KeptIsMatching(dict, mask, PageIndices(page.body, page.n).value);
  }

  /** A values result is the in-order list of `dict[idx]` over all rows with `mask[idx]` set. */
  lemma {:induction false} ValuesAreMatching<T>(pages: seq<Page>, dict: seq<T>, mask: seq<Byte>)
    requires ChunkValues(pages, dict, mask).Ok?
    ensures ChunkIndices(pages).Ok?
    ensures forall k :: 0 <= k < |ChunkIndices(pages).value| ==> ChunkIndices(pages).value[k] < |dict|
    ensures ChunkValues(pages, dict, mask).value == Matching(dict, mask, ChunkIndices(pages).value)
  {
    hide PageIndices, PageKept, MaskAt;
    if pages != [] {
      PageKeptIsMatching(pages[0], dict, mask);
      ValuesAreMatching(pages[1..], dict, mask);
      MatchingAppend(dict, mask, PageIndices(pages[0].body, pages[0].n).value, ChunkIndices(pages[1..]).value);
    }
  }

  /** A bitmap result has one set bit per matching row. */
  lemma {:induction false} BitmapCountsMatching(pages: seq<Page>, mask: seq<Byte>)
    requires ChunkBitmap(pages, mask).Ok?
    ensures ChunkIndices(pages).Ok?
    ensures Sum(ChunkBitmap(pages, mask).value) == Sum(MaskBits(mask, ChunkIndices(pages).value))
  {
    hide PageIndices, PageBits, MaskBits;
    MaskNothing(mask);
    if pages != [] {
      var bits := PageBits(pages[0].body, mask, pages[0].n).value;
      FusedBitsAreMaskedIndices(pages[0].body, mask, pages[0].n);
      BitmapCountsMatching(pages[1..], mask);
      var idx, rest := PageIndices(pages[0].body, pages[0].n).value, ChunkIndices(pages[1..]).value;
      MaskBitsAppend(mask, idx, rest);
      SumAppend(MaskBits(mask, idx), MaskBits(mask, rest));
      PaddedSum(bits);
      SumAppend(Padded(bits), ChunkBitmap(pages[1..], mask).value);
    }
  }

  lemma PaddedSum(bits: seq<nat>)
    ensures Sum(Padded(bits)) == Sum(bits)
  {
    var pad := 8 * CeilDiv8(|bits|) - |bits|;
    SumAppend(bits, Zeros(pad));
    SumZeros(pad);
  }

  /** The dispatch never changes the answer: where both shapes succeed, the bitmap has exactly as
      many set bits as there are values, and both come from the same indices. */
  lemma DispatchAgrees<T>(pages: seq<Page>, dict: seq<T>, mask: seq<Byte>)
    requires ZeroOne(mask) && ChunkValues(pages, dict, mask).Ok? && ChunkBitmap(pages, mask).Ok?
    ensures |ChunkValues(pages, dict, mask).value| == Sum(ChunkBitmap(pages, mask).value)
  {
    hide ChunkValues, ChunkBitmap, ChunkIndices, MaskBits, Matching, Sum;
    ValuesAreMatching(pages, dict, mask);
    BitmapCountsMatching(pages, mask);
    MatchingCount(dict, mask, ChunkIndices(pages).value);
  }

  /** The empty runs of every page name entries of the dictionary. */
  predicate EmptyRunsInDict(pages: seq<Page>, limit: nat) {
    pages == [] || (PageEmptyRunsInRange(pages[0].body, limit, pages[0].n) && EmptyRunsInDict(pages[1..], limit))
  }

  /** Materialising succeeds exactly where fusing does, every index names a dictionary entry, and so
      do the empty runs. */
  lemma ValuesSucceedExactly<T>(pages: seq<Page>, dict: seq<T>, mask: seq<Byte>)
    ensures ChunkValues(pages, dict, mask).Ok? <==>
              && ChunkBitmap(pages, mask).Ok?
              && ChunkIndices(pages).Ok?
              && (forall k :: 0 <= k < |ChunkIndices(pages).value| ==> ChunkIndices(pages).value[k] < |dict|)
              && EmptyRunsInDict(pages, |dict|)
  {
    hide ChunkValues, ChunkBitmap, ChunkIndices, EmptyRunsInDict;
    ValuesSucceed(pages, dict, mask);
    if ChunkIndices(pages).Ok? {
      LookupAllMeaning(dict, ChunkIndices(pages).value);
    }
  }

  lemma {:induction false} ValuesSucceed<T>(pages: seq<Page>, dict: seq<T>, mask: seq<Byte>)
    ensures ChunkValues(pages, dict, mask).Ok? <==>
              && ChunkBitmap(pages, mask).Ok?
              && ChunkIndices(pages).Ok?
              && LookupAll(dict, ChunkIndices(pages).value).Ok?
              && EmptyRunsInDict(pages, |dict|)
  {
    hide PageIndices, PageValues, PageBits, LookupAll, PageEmptyRunsInRange, Padded;
    if pages == [] {
      LookupNothing(dict);
    } else {
      var page, rest := pages[0], ChunkIndices(pages[1..]);
      ValuesSucceed(pages[1..], dict, mask);
      PageFusedSucceedsExactly(page.body, dict, page.n);
      var idx := PageIndices(page.body, page.n);
      if idx.Ok? && rest.Ok? {
        LookupAppend(dict, idx.value, rest.value);
      }
    }
  }

  /** One row of width 0 against an empty dictionary: fused decoding takes it, materialising does not. */
  lemma FusedWhereValuesFail<T>(dict: seq<T>)
    requires dict == []
    ensures var pages := [Page([0], 1)];
            ChunkBitmap(pages, [1]).Ok? && ChunkValues(pages, dict, [1]) == Err(DictIndexOutOfRange(0, 0))
  {
    var pages := [Page([0], 1)];
    assert pages[1..] == [];
    var body: seq<Byte>, zero: seq<nat> := [0], seq(1, _ => 0);
    assert body[0] == 0 && zero[0] == 0;
    assert PageValues(body, dict, 1) == LookupAll(dict, zero);
    assert PageBits(body, [1], 1).Ok?;
  }

  // ----- the documented layout -----

  function RowCounts(pages: seq<Page>): (ns: seq<nat>)
    ensures |ns| == |pages|
  {
    if pages == [] then [] else [pages[0].n] + RowCounts(pages[1..])
  }

  /** Each page has a multiple of eight rows, or no rows follow it. */
  predicate Aligned(ns: seq<nat>) {
    ns == [] || ((ns[0] % 8 == 0 || Sum(ns[1..]) == 0) && Aligned(ns[1..]))
  }

  /** The layout: row `r` of the chunk, over all pages, is bit `r` of the bitmap. */
  predicate Contiguous(pages: seq<Page>, mask: seq<Byte>) {
    ChunkBitmap(pages, mask).Ok? && ChunkIndices(pages).Ok? ==>
      MaskBits(mask, ChunkIndices(pages).value) <= ChunkBitmap(pages, mask).value
  }

  /** On aligned pages the whole bitmap is that of one page with all the rows. */
  lemma {:induction false} AlignedLayout(pages: seq<Page>, mask: seq<Byte>)
    requires Aligned(RowCounts(pages)) && ChunkBitmap(pages, mask).Ok?
    ensures ChunkIndices(pages).Ok? && |ChunkIndices(pages).value| == Sum(RowCounts(pages))
    ensures ChunkBitmap(pages, mask).value == Padded(MaskBits(mask, ChunkIndices(pages).value))
  {
    hide PageIndices, PageBits, MaskBits, Padded;
    MaskNothing(mask);
    PaddedNothing();
    if pages != [] {
      FusedBitsAreMaskedIndices(pages[0].body, mask, pages[0].n);
      assert RowCounts(pages)[1..] == RowCounts(pages[1..]);
      AlignedLayout(pages[1..], mask);
      var idx, rest := PageIndices(pages[0].body, pages[0].n).value, ChunkIndices(pages[1..]).value;
      MaskBitsAppend(mask, idx, rest);
      if pages[0].n % 8 == 0 {
        PaddedAppend(MaskBits(mask, idx), MaskBits(mask, rest));
      } else {
        assert rest == [];
        assert idx + [] == idx && Padded(MaskBits(mask, idx)) + [] == Padded(MaskBits(mask, idx));
      }
    }
  }

  /** The layout holds for every chunk with these row counts, whatever its bodies and mask, if and only
      if the row counts are aligned. */
  lemma LayoutExactly(ns: seq<nat>)
    ensures (forall pages: seq<Page>, mask: seq<Byte> :: RowCounts(pages) == ns ==> Contiguous(pages, mask)) <==> Aligned(ns)
  {
    hide ChunkBitmap, ChunkIndices, RowCounts, Aligned, MaskBits;
    if Aligned(ns) {
      forall pages: seq<Page>, mask: seq<Byte> | RowCounts(pages) == ns
        ensures Contiguous(pages, mask)
      {
        if ChunkBitmap(pages, mask).Ok? {
          AlignedLayout(pages, mask);
        }
      }
    } else {
      ZeroPagesDecode(ns);
      PaddingInside(ns);
      MaskedZeros(Sum(ns));
      assert !Contiguous(ZeroPages(ns), [1]);
    }
  }

  /** Width-0 pages with these row counts. */
  function ZeroPages(ns: seq<nat>): seq<Page> {
    if ns == [] then [] else [Page([0], ns[0])] + ZeroPages(ns[1..])
  }

  /** Their bitmap under a mask that keeps every row. */
  function PaddedOnes(ns: seq<nat>): seq<nat> {
    if ns == [] then [] else Padded(Ones(ns[0])) + PaddedOnes(ns[1..])
  }

  lemma MaskedZeros(n: nat)
    ensures MaskBits([1], Zeros(n)) == Ones(n)
  {
  }

  lemma ZeroPage(n: nat)
    ensures PageIndices([0], n) == Ok(Zeros(n)) && PageBits([0], [1], n) == Ok(Ones(n))
  {
    MaskedZeros(n);
    var body: seq<Byte> := [0];
    assert body[0] == 0;
    assert Zeros(0) == [] && Ones(0) == [];
  }

  lemma {:induction false} ZeroPagesDecode(ns: seq<nat>)
    ensures RowCounts(ZeroPages(ns)) == ns
    ensures ChunkIndices(ZeroPages(ns)) == Ok(Zeros(Sum(ns)))
    ensures ChunkBitmap(ZeroPages(ns), [1]) == Ok(PaddedOnes(ns))
  {
    hide PageIndices, PageBits, Padded, Ones;
    if ns != [] {
      var pages := ZeroPages(ns);
      assert pages[0] == Page([0], ns[0]) && pages[1..] == ZeroPages(ns[1..]);
      ZeroPagesDecode(ns[1..]);
      ZeroPage(ns[0]);
      assert Zeros(ns[0]) + Zeros(Sum(ns[1..])) == Zeros(Sum(ns));
    }
  }

  lemma {:induction false} NoRowsAligned(ns: seq<nat>)
    requires Sum(ns) == 0
    ensures Aligned(ns)
  {
    if ns != [] {
      NoRowsAligned(ns[1..]);
    }
  }

  /** Somewhere a padding bit stands where a row should. */
  lemma {:induction false} PaddingInside(ns: seq<nat>)
    requires !Aligned(ns)
    ensures !(Ones(Sum(ns)) <= PaddedOnes(ns))
  {
    var n, rest, bits := ns[0], ns[1..], PaddedOnes(ns);
    if n % 8 == 0 {
      PaddingInside(rest);
      PaddedWhole(Ones(n));
      assert Ones(Sum(ns)) == Ones(n) + Ones(Sum(rest));
      assert bits[n..] == PaddedOnes(rest);
    } else {
      if Sum(rest) == 0 {
        NoRowsAligned(rest);
      }
      assert Padded(Ones(n))[n] == 0 && Ones(Sum(ns))[n] == 1;
    }
  }

  lemma PaddedWhole(bits: seq<nat>)
    requires |bits| % 8 == 0
    ensures Padded(bits) == bits
  {
    assert Zeros(0) == [];
  }

  /** Two pages of one row each: both rows match, the second one is bit 8 instead of bit 1. */
  lemma LayoutBreaks()
    ensures var pages := [Page([0], 1), Page([0], 1)];
            && ChunkIndices(pages) == Ok([0, 0])
            && MaskBits([1], [0, 0]) == [1, 1]
            && ChunkBitmap(pages, [1]) == Ok([1, 0, 0, 0, 0, 0, 0, 0, 1, 0, 0, 0, 0, 0, 0, 0])
            && !Contiguous(pages, [1])
  {
    var ns := [1, 1];
    assert ns[1..] == [1] && ns[1..][1..] == [];
    assert Sum([1]) == 1 && Sum(ns) == 2;
    assert ZeroPages([1]) == [Page([0], 1)] && ZeroPages(ns) == [Page([0], 1), Page([0], 1)];
    ZeroPagesDecode(ns);
    var one: seq<nat> := [1, 0, 0, 0, 0, 0, 0, 0];
    assert Padded(Ones(1)) == one;
    assert one + [] == one && PaddedOnes([1]) == one;
    assert one + one == [1, 0, 0, 0, 0, 0, 0, 0, 1, 0, 0, 0, 0, 0, 0, 0];
    assert PaddedOnes(ns) == one + one;
    assert Zeros(2) == [0, 0] && Ones(2) == [1, 1];
    MaskedZeros(2);
  }

  lemma PaddedNothing()
    ensures Padded([]) == []
  {
  }

  lemma PaddedAppend(a: seq<nat>, b: seq<nat>)
    requires |a| % 8 == 0
    ensures Padded(a) + Padded(b) == Padded(a + b)
  {
    hide Zeros;
    PaddedWhole(a);
    SamePadding(|a|, |b|);
    var pad := Zeros(8 * CeilDiv8(|b|) - |b|);
    assert a + (b + pad) == (a + b) + pad;
  }

  lemma SamePadding(a: nat, b: nat)
    requires a % 8 == 0
    ensures 8 * CeilDiv8(a + b) - (a + b) == 8 * CeilDiv8(b) - b
  {
  }

  // ----- counting -----

  lemma {:induction false} CountLow(bitmap: seq<Byte>, j: nat, i: nat, w: nat)
    requires j < |bitmap| && i + w <= 8
    ensures CountBits(bitmap, 8 * j + i, w) == CountOnes(Low(Shr(bitmap[j], i), w))
    decreases w
  {
    hide Shr, Low, CountOnes;
    if w > 0 {
      CountLow(bitmap, j, i + 1, w - 1);
      assert (8 * j + i) / 8 == j && (8 * j + i) % 8 == i;
      ShrSucc(bitmap[j], i);
      OnesOfLow(Shr(bitmap[j], i), w);
    } else {
      NoOnes(Shr(bitmap[j], i));
    }
  }

  lemma OnesOfLow(x: nat, w: nat)
    requires w > 0
    ensures CountOnes(Low(x, w)) == x % 2 + CountOnes(Low(x / 2, w - 1))
  {
    assert Low(x, w) == x % 2 + 2 * Low(x / 2, w - 1);
  }

  lemma NoOnes(x: nat)
    ensures CountOnes(Low(x, 0)) == 0
  {
  }

  /** `bitmap[full] & ((1 << tail) - 1)`. */
  lemma TailCount(bitmap: seq<Byte>, full: nat, tail: nat)
    requires full < |bitmap| && tail < 8
    ensures CountOnes(And(bitmap[full], Mask(tail))) == CountBits(bitmap, 8 * full, tail)
  {
    hide And, Low, CountOnes, CountBits, Mask, Up;
    AndMask(bitmap[full], tail);
    CountLow(bitmap, full, 0, tail);
    ShrZero(bitmap[full]);
  }

  /** `popcount_bitmap_prefix`. */
  method PopcountPrefix(bitmap: seq<Byte>, n: nat) returns (acc: nat)
    requires CeilDiv8(n) <= |bitmap|
    ensures acc == CountBits(bitmap, 0, n)
  {
    hide CountBits, CountOnes, And, Up;
    CountNone(bitmap, 0);
    if n == 0 {
      return 0;
    }
    var full, tail := n / 8, n % 8;
    acc := 0;
    for k := 0 to full
      invariant acc == CountBits(bitmap, 0, 8 * k)
    {
      CountBitsSplit(bitmap, 0, 8 * k, 8);
      CountByte(bitmap, 8 * k, 8);
      CountNone(bitmap, 8 * k + 8);
      acc := acc + CountOnes(bitmap[k]);
    }
    if tail != 0 {
      CountBitsSplit(bitmap, 0, 8 * full, tail);
      TailCount(bitmap, full, tail);
      PowerIsMask(tail);
      acc := acc + CountOnes(And(bitmap[full], Up(1, tail) - 1));
    }
  }

  lemma {:induction false} CountIsSum(bitmap: seq<Byte>, at: nat, bits: seq<nat>)
    requires forall r :: 0 <= r < |bits| ==> Bit(bitmap, r + at) == bits[r]
    ensures CountBits(bitmap, at, |bits|) == Sum(bits)
    decreases |bits|
  {
    hide Bit;
    if bits != [] {
      assert Bit(bitmap, 0 + at) == bits[0];
      forall r | 0 <= r < |bits| - 1
        ensures Bit(bitmap, r + (at + 1)) == bits[1..][r]
      {
        assert Bit(bitmap, (r + 1) + at) == bits[r + 1];
      }
      CountIsSum(bitmap, at + 1, bits[1..]);
    }
  }

  // ----- the runner -----

  /** `probe_page_fused`. */
  method ProbePageFused(page: Page, mask: seq<Byte>, avx2: bool, out0: seq<Byte>)
    returns (r: Result<nat>, out: seq<Byte>)
    requires ZeroOne(mask)
    ensures PageBits(page.body, mask, page.n).Err? ==> r == Err(PageBits(page.body, mask, page.n).error)
    ensures PageBits(page.body, mask, page.n).Ok? ==>
              && r == Ok(Sum(PageBits(page.body, mask, page.n).value))
              && BitsOf(out) == BitsOf(out0) + Padded(PageBits(page.body, mask, page.n).value)
    ensures out0 <= out
  {
    hide PageBits, BitsOf, Bit, Sum;
    var status;
    status, out := PredicateBitmapInto(page.body, page.n, mask, avx2, out0);
    if status.Fail? {
      return Err(status.error), out;
    }
    ghost var bits := PageBits(page.body, mask, page.n).value;
    AppendedMeaning(out0, bits, out);
    SuffixBits(out0, out, bits);
    CountIsSum(out[|out0|..], 0, bits);
    var passed := PopcountPrefix(out[|out0|..], page.n);
    assert BitsOf(out0) + bits + Zeros(8 * CeilDiv8(|bits|) - |bits|) == BitsOf(out0) + Padded(bits);
    return Ok(passed), out;
  }

  lemma SuffixBits(out0: seq<Byte>, out: seq<Byte>, bits: seq<nat>)
    requires out0 <= out && |out| == |out0| + CeilDiv8(|bits|)
    requires forall r :: 0 <= r < |bits| ==> Bit(out, 8 * |out0| + r) == bits[r]
    ensures forall r :: 0 <= r < |bits| ==> Bit(out[|out0|..], r + 0) == bits[r]
  {
    hide Shr;
    forall r | 0 <= r < |bits|
      ensures Bit(out[|out0|..], r + 0) == bits[r]
    {
      assert Bit(out, 8 * |out0| + r) == bits[r];
      assert (8 * |out0| + r) / 8 == |out0| + r / 8 && (8 * |out0| + r) % 8 == r % 8;
    }
  }

  /** `materialise_filter`. */
  method MaterialiseFilter<T>(page: Page, mask: seq<Byte>, values: seq<T>, avx2: bool, out0: seq<T>)
    returns (r: Outcome, out: seq<T>)
    requires ZeroOne(mask) && |values| == page.n
    ensures r == Status(PageBits(page.body, mask, page.n))
    ensures r.Pass? ==> out == out0 + Kept(values, PageBits(page.body, mask, page.n).value)
  {
    hide PageBits, BitsOf, Shr, Appended, Kept;
    var bm;
    out := out0;
    r, bm := PredicateBitmapInto(page.body, page.n, mask, avx2, []);
    if r.Fail? {
      return;
    }
    ghost var bits := PageBits(page.body, mask, page.n).value;
    AppendedMeaning([], bits, bm);
    assert values[0..] == values && bits[0..] == bits;
    for row := 0 to page.n
      invariant out + Kept(values[row..], bits[row..]) == out0 + Kept(values, bits)
    {
      assert Bit(bm, 8 * 0 + row) == bits[row];
      KeptStep(values[row..], bits[row..]);
      assert values[row..][1..] == values[row + 1..] && bits[row..][1..] == bits[row + 1..];
      if Shr(bm[row / 8], row % 8) % 2 != 0 {
        out := out + [values[row]];
      }
    }
    KeptNothing(values[page.n..], bits[page.n..]);
  }

  lemma KeptNothing<T>(values: seq<T>, bits: seq<nat>)
    requires |values| == |bits| == 0
    ensures Kept(values, bits) == []
  {
  }

  lemma KeptStep<T>(values: seq<T>, bits: seq<nat>)
    requires |values| == |bits| > 0
    ensures Kept(values, bits) == (if bits[0] != 0 then [values[0]] else []) + Kept(values[1..], bits[1..])
  {
  }

  method CountRows(pages: seq<Page>) returns (total: nat)
    ensures total == TotalRows(pages)
  {
    total := 0;
    assert pages[0..] == pages;
    for i := 0 to |pages|
      invariant total + TotalRows(pages[i..]) == TotalRows(pages)
    {
      assert pages[i..][1..] == pages[i + 1..];
      total := total + pages[i].n;
    }
  }

  /** One page's bitmap appended to those before it, or its error. */
  lemma FuseStep(pages: seq<Page>, mask: seq<Byte>, i: nat, done: seq<nat>, whole: Result<seq<nat>>)
    requires i < |pages| && whole == Prepend(done, ChunkBitmap(pages[i..], mask))
    ensures var bits := PageBits(pages[i].body, mask, pages[i].n);
            if bits.Err? then whole == Err(bits.error)
            else && whole == Prepend(done + Padded(bits.value), ChunkBitmap(pages[i + 1..], mask))
                 && Sum(done + Padded(bits.value)) == Sum(done) + Sum(bits.value)
  {
    hide PageBits, Padded, Sum;
    assert pages[i..][1..] == pages[i + 1..];
    var bits := PageBits(pages[i].body, mask, pages[i].n);
    if bits.Ok? {
      PrependTwice(done, Padded(bits.value), ChunkBitmap(pages[i + 1..], mask));
      PaddedSum(bits.value);
      SumAppend(done, Padded(bits.value));
    }
  }

  lemma NoPages<T>(pages: seq<Page>, dict: seq<T>, mask: seq<Byte>)
    requires pages == []
    ensures ChunkBitmap(pages, mask) == Ok([]) && ChunkValues(pages, dict, mask) == Ok([]) && Sum([]) == 0
  {
  }

  /** The fused decoder over consecutive pages, counting rows that pass. */
  method FusePages(pages: seq<Page>, mask: seq<Byte>, avx2: bool, out0: seq<Byte>)
    returns (r: Result<nat>, out: seq<Byte>)
    requires ZeroOne(mask)
    ensures ChunkBitmap(pages, mask).Err? ==> r == Err(ChunkBitmap(pages, mask).error)
    ensures ChunkBitmap(pages, mask).Ok? ==>
              && r == Ok(Sum(ChunkBitmap(pages, mask).value))
              && BitsOf(out) == BitsOf(out0) + ChunkBitmap(pages, mask).value
    ensures out0 <= out
  {
    hide ChunkBitmap, BitsOf, Sum, PageBits, Padded;
    var passed := 0;
    out := out0;
    ghost var whole := ChunkBitmap(pages, mask);
    ghost var done := [];
    PrependNothing(whole);
    NoPages([], [0], mask);
    assert pages[0..] == pages && BitsOf(out0) + [] == BitsOf(out0);
    for i := 0 to |pages|
      invariant whole == Prepend(done, ChunkBitmap(pages[i..], mask))
      invariant passed == Sum(done) && BitsOf(out) == BitsOf(out0) + done && out0 <= out
    {
      FuseStep(pages, mask, i, done, whole);
      var rows;
      rows, out := ProbePageFused(pages[i], mask, avx2, out);
      if rows.Err? {
        return rows, out;
      }
      ghost var bits := Padded(PageBits(pages[i].body, mask, pages[i].n).value);
      assert BitsOf(out0) + done + bits == BitsOf(out0) + (done + bits);
      done := done + bits;
      passed := passed + rows.value;
    }
    assert pages[|pages|..] == [] && done + [] == done;
    return Ok(passed), out;
  }

  lemma MaterialiseStep<T>(pages: seq<Page>, dict: seq<T>, mask: seq<Byte>, i: nat, done: seq<T>, whole: Result<seq<T>>)
    requires i < |pages| && whole == Prepend(done, ChunkValues(pages[i..], dict, mask))
    ensures var kept := PageKept(pages[i], dict, mask);
            if kept.Err? then whole == Err(kept.error)
            else whole == Prepend(done + kept.value, ChunkValues(pages[i + 1..], dict, mask))
  {
    hide PageKept;
    assert pages[i..][1..] == pages[i + 1..];
    var kept := PageKept(pages[i], dict, mask);
    if kept.Ok? {
      PrependTwice(done, kept.value, ChunkValues(pages[i + 1..], dict, mask));
    }
  }

  /** Decode the values of a page, decode its bitmap, keep the matching rows. */
  method MaterialisePages<T>(pages: seq<Page>, dict: seq<T>, mask: seq<Byte>, avx2: bool) returns (r: Result<seq<T>>)
    requires ZeroOne(mask)
    ensures r == ChunkValues(pages, dict, mask)
  {
    hide ChunkValues, PageValues, PageBits, Kept;
    var values := [];
    ghost var whole := ChunkValues(pages, dict, mask);
    PrependNothing(whole);
    assert pages[0..] == pages;
    for i := 0 to |pages|
      invariant whole == Prepend(values, ChunkValues(pages[i..], dict, mask))
    {
      MaterialiseStep(pages, dict, mask, i, values, whole);
      var status, tmp;
      status, tmp := DecodeValuesInto(pages[i].body, dict, pages[i].n, []);
      if status.Fail? {
        return Err(status.error);
      }
      ghost var decoded := PageValues(pages[i].body, dict, pages[i].n).value;
      assert [] + decoded == decoded;
      PageValuesLength(pages[i].body, dict, pages[i].n);
      status, values := MaterialiseFilter(pages[i], mask, tmp, avx2, values);
      if status.Fail? {
        return Err(status.error);
      }
    }
    NoPages(pages[|pages|..], dict, mask);
    assert values + [] == values;
    return Ok(values);
  }

  /** Probed pages followed by the rest give the bitmap of all pages. */
  lemma {:induction false} BitmapAppend(a: seq<Page>, b: seq<Page>, mask: seq<Byte>)
    ensures ChunkBitmap(a + b, mask)
         == if ChunkBitmap(a, mask).Err? then ChunkBitmap(a, mask)
            else Prepend(ChunkBitmap(a, mask).value, ChunkBitmap(b, mask))
    decreases |a|
  {
    hide PageBits, Padded;
    if a == [] {
      assert a + b == b;
      PrependNothing(ChunkBitmap(b, mask));
    } else {
      assert (a + b)[1..] == a[1..] + b;
      BitmapAppend(a[1..], b, mask);
      var bits := PageBits(a[0].body, mask, a[0].n);
      if bits.Ok? && ChunkBitmap(a[1..], mask).Ok? {
        PrependTwice(Padded(bits.value), ChunkBitmap(a[1..], mask).value, ChunkBitmap(b, mask));
      }
    }
  }

  /** `run_adaptive_dict_chunk`; `materialise` is the outcome of the selectivity comparison. A chunk
      without rows gives the empty bitmap whatever its pages hold; any other gives all its rows. */
  method RunAdaptiveChunk<T>(pages: seq<Page>, dict: seq<T>, mask: seq<Byte>, probePages: nat, materialise: bool, avx2: bool)
    returns (r: Result<AdaptiveOutput<T>>)
    requires ZeroOne(mask)
    ensures (forall k :: 0 <= k < |pages| ==> pages[k].n == 0) ==> r == Ok(AdaptiveOutput(true, 0, Bitmap([], 0)))
    ensures (exists k :: 0 <= k < |pages| && pages[k].n > 0) && !materialise ==>
              var bits := ChunkBitmap(pages, mask);
              if bits.Err? then r == Err(bits.error)
              else
                && r.Ok? && r.value.fused && r.value.kind.Bitmap?
                && BitsOf(r.value.kind.bitmap) == bits.value && r.value.kind.setBits == Sum(bits.value)
    ensures (exists k :: 0 <= k < |pages| && pages[k].n > 0) && materialise ==>
              var probed, values := ChunkBitmap(pages[..Min(probePages, |pages|)], mask), ChunkValues(pages, dict, mask);
              if probed.Err? then r == Err(probed.error)
              else if values.Err? then r == Err(values.error)
              else r.Ok? && !r.value.fused && r.value.kind == Values(values.value)
    ensures r.Ok? && ChunkIndices(pages).Ok? ==> r.value.totalRows == |ChunkIndices(pages).value|
  {
    hide ChunkBitmap, ChunkValues, ChunkIndices, BitsOf, Sum, TotalRows;
    var totalRows := CountRows(pages);
    TotalRowsMeaning(pages);
    if totalRows == 0 {
      return Ok(AdaptiveOutput(true, 0, Bitmap([], 0)));
    }
    var probeEnd := Min(probePages, |pages|);
    var passed, bitmap := FusePages(pages[..probeEnd], mask, avx2, []);
    BitmapAppend(pages[..probeEnd], pages[probeEnd..], mask);
    assert pages[..probeEnd] + pages[probeEnd..] == pages;
    if passed.Err? {
      return Err(passed.error);
    }
    if materialise {
      var values :- MaterialisePages(pages, dict, mask, avx2);
      return Ok(AdaptiveOutput(false, totalRows, Values(values)));
    }
    ghost var first := ChunkBitmap(pages[..probeEnd], mask).value;
    assert BitsOf([]) + first == first;
    var more, all := FusePages(pages[probeEnd..], mask, avx2, bitmap);
    if more.Err? {
      return Err(more.error);
    }
    SumAppend(first, ChunkBitmap(pages[probeEnd..], mask).value);
    return Ok(AdaptiveOutput(true, totalRows, Bitmap(all, passed.value + more.value)));
  }
}
