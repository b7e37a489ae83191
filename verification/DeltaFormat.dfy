/** The DELTA_BINARY_PACKED layout written out (Apache Parquet Encodings.md, section "Delta Encoding"),
    and that the decoder reads every stream of that layout; with it every list of values has one. */
module DeltaFormat {
  import opened Bits
  import opened Bitmaps
  import opened Wire
  import opened DeltaStream
  import opened Packing
  import opened Rle

  // ----- numbers inside a larger text -----

  lemma UvarintInText(pre: seq<Byte>, v: nat, rest: seq<Byte>)
    requires v < U64_MODULUS
    ensures UvarintAt(pre + LebBytes(v) + rest, |pre|) == Ok((v, |pre| + |LebBytes(v)|))
  {
    hide LebBytes, UvarintAt;
    UvarintRoundTrip(v);
    var buf := pre + LebBytes(v) + rest;
    assert buf[|pre|..|pre| + |LebBytes(v)|] == LebBytes(v);
    UvarintLocal(LebBytes(v), 0, buf, |pre|);
  }

  lemma ZigzagInText(pre: seq<Byte>, v: int, width: nat, rest: seq<Byte>)
    requires (width == 32 || width == 64) && InRange(v, width)
    ensures ZigzagAt(pre + LebBytes(Zigzag(v)) + rest, |pre|, width) == Ok((v, |pre| + |LebBytes(Zigzag(v))|))
  {
    hide LebBytes, UvarintAt, Low, Mask;
    MaskValues();
    UvarintInText(pre, Zigzag(v), rest);
    LowFits(Zigzag(v), width);
    ZigzagRoundTrip(v, 0);
  }

  // ----- blocks -----

  /** A block: its minimum delta, one width per mini-block, and the bodies that are needed. */
  datatype Block = Block(minDelta: int, widths: seq<Byte>, bodies: seq<seq<Byte>>)

  /** The bodies hold exactly what `n` more deltas need: none is there that would not be read, and
      bodies run out only when the deltas or the mini-blocks do. */
  predicate BodiesFor(widths: seq<Byte>, bodies: seq<seq<Byte>>, mini: nat, width: nat, n: nat)
    decreases |bodies|
  {
    if bodies == [] then widths == [] || n == 0
    else
      && widths != [] && n > 0 && widths[0] <= width
      && WholeBody(mini, widths[0]) && |bodies[0]| == BodyBytes(mini, widths[0])
      && BodiesFor(widths[1..], bodies[1..], mini, width, n - Min(n, mini))
  }

  function BodyIncrements(widths: seq<Byte>, bodies: seq<seq<Byte>>, mini: nat, minDelta: int, n: nat): (r: seq<int>)
    requires |bodies| <= |widths|
    ensures |r| <= n
    decreases |bodies|
  {
    if bodies == [] then []
    else Shifted(minDelta, Unpacked(bodies[0], Min(n, mini), widths[0]))
         + BodyIncrements(widths[1..], bodies[1..], mini, minDelta, n - Min(n, mini))
  }

  lemma BodyInText(pre: seq<Byte>, body: seq<Byte>, others: seq<Byte>, rest: seq<Byte>)
    ensures var buf := pre + (body + others) + rest;
            && buf == pre + body + others + rest
            && |pre| + |body| <= |buf| && TakeAt(buf, |pre|, |body|) == Ok(body)
    ensures |pre + body| == |pre| + |body|
  {
    var buf := pre + (body + others) + rest;
    assert buf[|pre|..|pre| + |body|] == body;
  }

  /** A body at the front of those left. */
  lemma BodyStep(buf: seq<Byte>, pos: nat, widths: seq<Byte>, mini: nat, minDelta: int, width: nat, n: nat, body: seq<Byte>)
    requires (width == 32 || width == 64) && pos + |body| <= |buf| && widths != [] && n > 0
    requires widths[0] <= width && WholeBody(mini, widths[0]) && |body| == BodyBytes(mini, widths[0])
    requires TakeAt(buf, pos, |body|) == Ok(body)
    ensures var here := Shifted(minDelta, Unpacked(body, Min(n, mini), widths[0]));
            var rest := MiniBlocks(buf, pos + |body|, widths[1..], mini, minDelta, width, n - Min(n, mini));
            MiniBlocks(buf, pos, widths, mini, minDelta, width, n)
            == if rest.Ok? then Ok((here + rest.value.0, rest.value.1)) else rest
  {
    hide Shifted, Unpacked, BodyBytes, WholeBody, TakeAt;
  }

  lemma NoBodies(buf: seq<Byte>, pos: nat, widths: seq<Byte>, mini: nat, minDelta: int, width: nat, n: nat)
    requires pos <= |buf| && (widths == [] || n == 0)
    ensures MiniBlocks(buf, pos, widths, mini, minDelta, width, n) == Ok(([], pos))
  {
  }

  lemma {:induction false} BodiesRead(pre: seq<Byte>, widths: seq<Byte>, bodies: seq<seq<Byte>>, mini: nat, minDelta: int,
                                      width: nat, n: nat, rest: seq<Byte>)
    requires (width == 32 || width == 64) && |bodies| <= |widths| && BodiesFor(widths, bodies, mini, width, n)
    ensures MiniBlocks(pre + Concat(bodies) + rest, |pre|, widths, mini, minDelta, width, n)
         == Ok((BodyIncrements(widths, bodies, mini, minDelta, n), |pre| + |Concat(bodies)|))
    decreases |bodies|
  {
    hide Shifted, Unpacked, BodyBytes, WholeBody, TakeAt, MiniBlocks;
    var buf := pre + Concat(bodies) + rest;
    if bodies == [] {
      NoBodies(buf, |pre|, widths, mini, minDelta, width, n);
    } else {
      var body, others := bodies[0], Concat(bodies[1..]);
      assert Concat(bodies) == body + others;
      hide Concat;
      BodyInText(pre, body, others, rest);
      var m := Min(n, mini);
      BodiesRead(pre + body, widths[1..], bodies[1..], mini, minDelta, width, n - m, rest);
      BodyStep(buf, |pre|, widths, mini, minDelta, width, n, body);
    }
  }

  function BlockText(b: Block): seq<Byte> {
    LebBytes(Zigzag(b.minDelta)) + b.widths + Concat(b.bodies)
  }

  predicate BlocksFor(blocks: seq<Block>, mini: nat, minis: nat, width: nat, n: nat)
    decreases |blocks|
  {
    if blocks == [] then n == 0
    else
      && n > 0 && InRange(blocks[0].minDelta, 64)
      && |blocks[0].widths| == minis && |blocks[0].bodies| <= minis
      && BodiesFor(blocks[0].widths, blocks[0].bodies, mini, width, n)
      && BlocksFor(blocks[1..], mini, minis, width, n - |BlockIncrements(blocks[0], mini, n)|)
  }

  function BlockIncrements(b: Block, mini: nat, n: nat): (r: seq<int>)
    requires |b.bodies| <= |b.widths|
    ensures |r| <= n
  {
    BodyIncrements(b.widths, b.bodies, mini, b.minDelta, n)
  }

  function BlocksText(blocks: seq<Block>): seq<Byte> {
    if blocks == [] then [] else BlockText(blocks[0]) + BlocksText(blocks[1..])
  }

  function AllIncrements(blocks: seq<Block>, mini: nat, minis: nat, width: nat, n: nat): seq<int>
    requires BlocksFor(blocks, mini, minis, width, n)
    decreases |blocks|
  {
    if blocks == [] then []
    else
      var here := BlockIncrements(blocks[0], mini, n);
      here + AllIncrements(blocks[1..], mini, minis, width, n - |here|)
  }

  /** One block of a stream. */
  lemma BlockRead(pre: seq<Byte>, b: Block, mini: nat, minis: nat, width: nat, n: nat, rest: seq<Byte>)
    requires (width == 32 || width == 64) && minis <= 64 && n > 0 && InRange(b.minDelta, 64)
    requires |b.widths| == minis && |b.bodies| <= minis && BodiesFor(b.widths, b.bodies, mini, width, n)
    ensures var buf := pre + BlockText(b) + rest;
            var p := |pre| + |LebBytes(Zigzag(b.minDelta))|;
            && ZigzagAt(buf, |pre|, 64) == Ok((b.minDelta, p))
            && WidthsAt(buf, p, minis) == Ok(b.widths)
            && p + minis <= |buf|
            && MiniBlocks(buf, p + minis, b.widths, mini, b.minDelta, width, n)
            == Ok((BlockIncrements(b, mini, n), |pre| + |BlockText(b)|))
  {
    hide ZigzagAt, LebBytes, MiniBlocks, BodyIncrements, BodiesFor, Concat;
    var head := LebBytes(Zigzag(b.minDelta));
    var bodies := Concat(b.bodies);
    var buf := pre + BlockText(b) + rest;
    var p := |pre| + |head|;
    assert buf == pre + head + (b.widths + bodies + rest);
    ZigzagInText(pre, b.minDelta, 64, b.widths + bodies + rest);
    assert buf[p..p + minis] == b.widths;
    var front := pre + head + b.widths;
    assert buf == front + bodies + rest && |front| == p + minis;
    BodiesRead(front, b.widths, b.bodies, mini, b.minDelta, width, n, rest);
  }

  lemma {:induction false} BlocksRead(pre: seq<Byte>, blocks: seq<Block>, mini: nat, minis: nat, width: nat, n: nat, rest: seq<Byte>)
    requires (width == 32 || width == 64) && minis <= 64 && BlocksFor(blocks, mini, minis, width, n)
    ensures Increments(pre + BlocksText(blocks) + rest, |pre|, mini, minis, width, n)
         == Ok((AllIncrements(blocks, mini, minis, width, n), |pre| + |BlocksText(blocks)|))
    decreases |blocks|
  {
    hide ZigzagAt, WidthsAt, MiniBlocks, BlockText, BlockIncrements, BodiesFor, LebBytes;
    var buf := pre + BlocksText(blocks) + rest;
    if blocks != [] {
      var b, others := blocks[0], BlocksText(blocks[1..]);
      assert buf == pre + BlockText(b) + (others + rest);
      BlockRead(pre, b, mini, minis, width, n, others + rest);
      var here := BlockIncrements(b, mini, n);
      assert buf == (pre + BlockText(b)) + others + rest;
      BlocksRead(pre + BlockText(b), blocks[1..], mini, minis, width, n - |here|, rest);
    }
  }

  // ----- streams -----

  function HeaderText(blockSize: nat, minis: nat, count: nat, first: int): seq<Byte> {
    LebBytes(blockSize) + LebBytes(minis) + LebBytes(count) + LebBytes(Zigzag(first))
  }

  /** A header of any four numbers: with no values the geometry is not looked at, otherwise the blocks
      must split into at least one mini-block without remainder. */
  lemma HeaderRead(blockSize: nat, minis: nat, count: nat, first: int, width: nat, rest: seq<Byte>)
    requires (width == 32 || width == 64) && InRange(first, width)
    requires blockSize < U64_MODULUS && minis < U64_MODULUS && count < U64_MODULUS
    ensures var text := HeaderText(blockSize, minis, count, first);
            HeaderAt(text + rest, 0, width)
            == if count == 0 then Ok((Header(0, 0, 0, first), |text|))
               else if minis == 0 || blockSize % minis != 0 then Err(Decompress)
               else Ok((Header(blockSize / minis, minis, count, first), |text|))
  {
    hide LebBytes, UvarintAt, ZigzagAt;
    var a, b, c, d := LebBytes(blockSize), LebBytes(minis), LebBytes(count), LebBytes(Zigzag(first));
    var buf := a + b + c + d + rest;
    assert buf == [] + a + (b + c + d + rest);
    UvarintInText([], blockSize, b + c + d + rest);
    assert buf == a + b + (c + d + rest);
    UvarintInText(a, minis, c + d + rest);
    assert buf == (a + b) + c + (d + rest);
    UvarintInText(a + b, count, d + rest);
    ZigzagInText(a + b + c, first, width, rest);
  }

  /** Every stream of the layout, whatever follows it, decodes to the first value and the running sums
      of its deltas, and the decoder stops exactly at its end. */
  lemma StreamRead(blockSize: nat, minis: nat, count: nat, first: int, blocks: seq<Block>, width: nat, rest: seq<Byte>)
    requires (width == 32 || width == 64) && InRange(first, width)
    requires blockSize < U64_MODULUS && 0 < minis <= 64 && 0 < count < U64_MODULUS && blockSize % minis == 0
    requires BlocksFor(blocks, blockSize / minis, minis, width, count - 1)
    ensures var text := HeaderText(blockSize, minis, count, first) + BlocksText(blocks);
            var incs := AllIncrements(blocks, blockSize / minis, minis, width, count - 1);
            DeltaAt(text + rest, 0, width) == Ok(([first] + Running(first, incs, width), |text|))
  {
    hide HeaderAt, Increments, HeaderText, BlocksText, AllIncrements, Running, BlocksFor;
    var head := HeaderText(blockSize, minis, count, first);
    var body := BlocksText(blocks);
    assert head + body + rest == head + (body + rest);
    HeaderRead(blockSize, minis, count, first, width, body + rest);
    BlocksRead(head, blocks, blockSize / minis, minis, width, count - 1, rest);
  }

  /** No values: the stream ends behind its header, whatever geometry that names. Bad geometry is refused
      only when there are values. */
  lemma HeaderAlone(blockSize: nat, minis: nat, count: nat, first: int, width: nat, rest: seq<Byte>)
    requires (width == 32 || width == 64) && InRange(first, width)
    requires blockSize < U64_MODULUS && minis < U64_MODULUS && count < U64_MODULUS
    ensures var text := HeaderText(blockSize, minis, count, first);
            && (count == 0 ==> DeltaAt(text + rest, 0, width) == Ok(([], |text|)))
            && (count > 0 && (minis == 0 || blockSize % minis != 0) ==> DeltaAt(text + rest, 0, width) == Err(Decompress))
  {
    hide HeaderAt, HeaderText, Increments;
    HeaderRead(blockSize, minis, count, first, width, rest);
  }

  /** What a stream of more than one value is refused for in its first block: more mini-blocks than 64, a
      width that is too large, a body that is missing bytes or is no whole number of them. */
  lemma FirstBlockRefused(blockSize: nat, minis: nat, mini: nat, count: nat, first: int, minDelta: int, widths: seq<Byte>,
                          width: nat, rest: seq<Byte>)
    requires (width == 32 || width == 64) && InRange(first, width) && InRange(minDelta, 64)
    requires blockSize < U64_MODULUS && 0 < minis < U64_MODULUS && 1 < count < U64_MODULUS && blockSize % minis == 0
    requires mini == blockSize / minis
    ensures var r := DeltaAt(HeaderText(blockSize, minis, count, first) + (LebBytes(Zigzag(minDelta)) + (widths + rest)), 0, width);
            && (minis > 64 ==> r == Err(Decompress))
            && (|widths + rest| < minis <= 64 ==> r == Err(UnexpectedEof(1, 0)))
            && (|widths| == minis <= 64 ==>
                  var bw, size := widths[0], BodyBytes(mini, widths[0]);
                  && (width == 64 && bw > 64 ==> r == Err(Decompress))
                  && (bw <= 64 && |rest| < size ==> r == Err(UnexpectedEof(size, |rest|)))
                  && (width == 32 && bw > 32 && |rest| >= size ==> r == Err(BitWidthOutOfRange(bw)))
                  && (bw <= width && |rest| >= size && mini * bw % 8 != 0 ==> r == Err(Decompress)))
  {
    hide HeaderAt, HeaderText, MiniBlocks, ZigzagAt, LebBytes, UvarintAt;
    var head, min := HeaderText(blockSize, minis, count, first), LebBytes(Zigzag(minDelta));
    var buf := head + (min + (widths + rest));
    HeaderRead(blockSize, minis, count, first, width, min + (widths + rest));
    assert buf == head + min + (widths + rest);
    ZigzagInText(head, minDelta, 64, widths + rest);
    if |widths| == minis <= 64 {
      var at := |head| + |min|;
      var front := head + min + widths;
      assert buf == front + rest && buf[at..at + minis] == widths;
      FirstBodyRefused(front, widths, mini, minDelta, width, count - 1, rest);
    }
  }

  lemma FirstBodyRefused(pre: seq<Byte>, widths: seq<Byte>, mini: nat, minDelta: int, width: nat, n: nat, rest: seq<Byte>)
    requires (width == 32 || width == 64) && widths != [] && n > 0
    ensures var r := MiniBlocks(pre + rest, |pre|, widths, mini, minDelta, width, n);
            var bw, size := widths[0], BodyBytes(mini, widths[0]);
            && (width == 64 && bw > 64 ==> r == Err(Decompress))
            && (bw <= 64 && |rest| < size ==> r == Err(UnexpectedEof(size, |rest|)))
            && (width == 32 && bw > 32 && |rest| >= size ==> r == Err(BitWidthOutOfRange(bw)))
            && (bw <= width && |rest| >= size && mini * bw % 8 != 0 ==> r == Err(Decompress))
  {
    hide Unpacked, Shifted, BodyBytes;
  }

  // ----- a stream for every list of values -----

  /** Differences modulo 2^width, so that they are non-negative. */
  function Differences(prev: int, rest: seq<int>, width: nat): (r: seq<nat>)
    ensures |r| == |rest|
    decreases |rest|
  {
    if rest == [] then [] else [(rest[0] - prev) % ValueModulus(width)] + Differences(rest[0], rest[1..], width)
  }

  predicate AllInRange(values: seq<int>, width: nat) {
    values == [] || (InRange(values[0], width) && AllInRange(values[1..], width))
  }

  /** A value in range is the wrapped form of anything congruent to it. */
  lemma WrapUnique(x: int, v: int, width: nat, k: int)
    requires (width == 32 || width == 64) && InRange(v, width) && x == v + ValueModulus(width) * k
    ensures Wrap(x, ValueModulus(width)) == v
  {
    if width == 32 {
      assert Wrap(v, I32_MODULUS) == v;
    } else {
      assert Wrap(v, I64_MODULUS) == v;
    }
    hide Wrap;
    WrapPeriod(v, k);
  }

  /** Running sums of the differences, from an accumulator congruent to the previous value. */
  lemma {:induction false} DifferencesAddUp(acc: int, k: int, prev: int, rest: seq<int>, width: nat)
    requires (width == 32 || width == 64) && AllInRange(rest, width) && acc == prev + ValueModulus(width) * k
    ensures Running(acc, Shifted(0, Differences(prev, rest, width)), width) == rest
    decreases |rest|
  {
    hide Wrap, InRange;
    if rest != [] {
      var m := ValueModulus(width);
      var v, d := rest[0], (rest[0] - prev) % m;
      var q := (v - prev) / m;
      var ds := Differences(prev, rest, width);
      assert ds[0] == d && ds[1..] == Differences(v, rest[1..], width);
      assert acc + d == v + m * (k - q) by {
        assert v - prev == m * q + d;
        assert m * (k - q) == m * k - m * q;
      }
      WrapUnique(acc + d, v, width, k - q);
      DifferencesAddUp(acc + d, k - q, v, rest[1..], width);
      var incs := Shifted(0, ds);
      assert incs[0] == d && incs[1..] == Shifted(0, ds[1..]);
    }
  }

  lemma {:induction false} DifferencesFit(prev: int, rest: seq<int>, width: nat)
    requires width == 32 || width == 64
    ensures Fit(Differences(prev, rest, width), width)
    decreases |rest|
  {
    hide Mask;
    MaskValues();
    if rest != [] {
      DifferencesFit(rest[0], rest[1..], width);
    }
  }

  /** A reference writer: one block of one mini-block at full width. */
  method WriteDelta(values: seq<int>, width: nat) returns (out: seq<Byte>)
    requires (width == 32 || width == 64) && values != [] && |values| < 0x4000_0000_0000_0000 && AllInRange(values, width)
    ensures forall rest: seq<Byte> :: DeltaAt(out + rest, 0, width) == Ok((values, |out|))
  {
    hide Fit, Filled, AllBits, BitsOf, DeltaAt, Running, Shifted, Mask;
    var first, n := values[0], |values| - 1;
    var size := 8 * CeilDiv8(n);
    if n == 0 {
      out := HeaderText(8, 1, 1, first);
      NoBlocksText(first, width);
      forall rest: seq<Byte>
        ensures DeltaAt(out + rest, 0, width) == Ok((values, |out|))
      {
        SingleValue(values, width, rest);
      }
      return;
    }
    var deltas := Differences(first, values[1..], width);
    var padded := deltas + seq(size - n, _ => 0);
    DifferencesFit(first, values[1..], width);
    FitZeros(size - n, width);
    FitAppend(deltas, seq(size - n, _ => 0), width);
    var body := PackLsbFirst([], padded, width);
    PackRoundTrip([], body, padded, width);
    assert body[0..] == body;
    var block := Block(0, [width], [body]);
    out := HeaderText(size, 1, |values|, first) + BlockText(block);
    forall rest: seq<Byte>
      ensures DeltaAt(out + rest, 0, width) == Ok((values, |out|))
    {
      OneBlock(values, width, padded, body, rest);
    }
  }

  lemma NoBlocksText(first: int, width: nat)
    ensures HeaderText(8, 1, 1, first) + BlocksText([]) == HeaderText(8, 1, 1, first)
  {
    hide HeaderText;
  }

  lemma SingleValue(values: seq<int>, width: nat, rest: seq<Byte>)
    requires (width == 32 || width == 64) && |values| == 1 && InRange(values[0], width)
    ensures DeltaAt(HeaderText(8, 1, 1, values[0]) + rest, 0, width) == Ok((values, |HeaderText(8, 1, 1, values[0])|))
  {
    hide HeaderText, DeltaAt, InRange;
    StreamRead(8, 1, 1, values[0], [], width, rest);
    NoBlocksText(values[0], width);
    assert [values[0]] + [] == values;
  }

  lemma OneBlock(values: seq<int>, width: nat, padded: seq<nat>, body: seq<Byte>, rest: seq<Byte>)
    requires (width == 32 || width == 64) && 1 < |values| < 0x4000_0000_0000_0000 && AllInRange(values, width)
    requires var n := |values| - 1;
             && |padded| == 8 * CeilDiv8(n)
             && padded[..n] == Differences(values[0], values[1..], width)
    requires |body| == |padded| / 8 * width && Unpacked(body, |padded|, width) == padded
    ensures var text := HeaderText(|padded|, 1, |values|, values[0]) + BlockText(Block(0, [width], [body]));
            DeltaAt(text + rest, 0, width) == Ok((values, |text|))
  {
    hide HeaderText, BlockText, DeltaAt, Running, Shifted, Unpacked, InRange, AllInRange;
    var n, block := |values| - 1, Block(0, [width], [body]);
    FirstInRange(values, width);
    OneBodyFits(body, |padded|, width, n);
    OneBlockText(block);
    PaddedPrefix(body, padded, n, width);
    DifferencesAddUp(values[0], 0, values[0], values[1..], width);
    StreamRead(|padded|, 1, |values|, values[0], [block], width, rest);
    OneBlockIncrements(block, |padded|, width, n);
    assert [values[0]] + values[1..] == values;
  }

  lemma FirstInRange(values: seq<int>, width: nat)
    requires values != [] && AllInRange(values, width)
    ensures InRange(values[0], width) && AllInRange(values[1..], width)
  {
    hide InRange;
  }

  lemma PaddedPrefix(body: seq<Byte>, padded: seq<nat>, n: nat, width: nat)
    requires n <= |padded| && Unpacked(body, |padded|, width) == padded
    ensures Unpacked(body, n, width) == padded[..n]
  {
    hide Fields;
    FieldsSplit(body, 0, n, |padded| - n, width);
  }

  lemma OneBlockText(b: Block)
    ensures BlocksText([b]) == BlockText(b)
  {
    hide BlockText;
    assert [b][1..] == [] && BlockText(b) + [] == BlockText(b);
  }

  lemma OneBodyFits(body: seq<Byte>, mini: nat, width: nat, n: nat)
    requires (width == 32 || width == 64) && 0 < n <= mini && mini % 8 == 0 && |body| == mini / 8 * width
    ensures BodyBytes(mini, width) == |body|
    ensures BlocksFor([Block(0, [width], [body])], mini, 1, width, n)
  {
    hide Shifted, Unpacked;
    assert mini * width == 8 * (mini / 8 * width);
    assert BodyBytes(mini, width) == |body|;
    WholeBodies(mini, width);
    hide BodyBytes, WholeBody;
    var widths: seq<Byte>, bodies: seq<seq<Byte>> := [width], [body];
    assert widths[1..] == [] && bodies[1..] == [];
    var block := Block(0, widths, bodies);
    var blocks := [block];
    assert blocks[1..] == [];
    assert BodiesFor(widths[1..], bodies[1..], mini, width, 0);
    assert BodiesFor(widths, bodies, mini, width, n);
    assert BodyIncrements(widths[1..], bodies[1..], mini, 0, 0) == [];
    assert |BlockIncrements(block, mini, n)| == n;
  }

  lemma OneBlockIncrements(b: Block, mini: nat, width: nat, n: nat)
    requires |b.widths| == 1 && |b.bodies| == 1 && n <= mini && BlocksFor([b], mini, 1, width, n)
    ensures AllIncrements([b], mini, 1, width, n) == Shifted(b.minDelta, Unpacked(b.bodies[0], n, b.widths[0]))
  {
    hide Shifted, Unpacked, BodiesFor, InRange;
    var here := Shifted(b.minDelta, Unpacked(b.bodies[0], n, b.widths[0]));
    assert BodyIncrements(b.widths[1..], b.bodies[1..], mini, b.minDelta, 0) == [];
    assert here + [] == here;
    assert BlockIncrements(b, mini, n) == here;
    assert [b][1..] == [];
  }
}
