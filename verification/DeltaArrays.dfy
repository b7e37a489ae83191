/** DELTA_LENGTH_BYTE_ARRAY and DELTA_BYTE_ARRAY: delta streams of lengths nested back to back through
    one cursor, followed by the bytes. */
module DeltaArrays {
  import opened Bits
  import opened Wire
  import opened DeltaStream
  import opened DeltaDecode

  // ----- meaning -----

  function Slices(buf: seq<Byte>, pos: nat, lengths: seq<int>): Result<seq<seq<Byte>>>
    requires pos <= |buf|
    decreases |lengths|
  {
    if lengths == [] then Ok([])
    else if lengths[0] < 0 then Err(Decompress)
    else
      var slice :- TakeAt(buf, pos, lengths[0]);
      Prepend([slice], Slices(buf, pos + lengths[0], lengths[1..]))
  }

  function LengthArray(bytes: seq<Byte>): Result<seq<seq<Byte>>> {
    var (lengths, pos) :- DeltaAt(bytes, 0, 32);
    Slices(bytes, pos, lengths)
  }

  /** Each value is a prefix of the one before it and a suffix from the input. */
  function Rebuilt(buf: seq<Byte>, pos: nat, prefixes: seq<int>, suffixes: seq<int>, prev: seq<Byte>):
    Result<seq<seq<Byte>>>
    requires pos <= |buf| && |prefixes| == |suffixes|
    decreases |prefixes|
  {
    if prefixes == [] then Ok([])
    else if prefixes[0] < 0 || suffixes[0] < 0 || prefixes[0] > |prev| then Err(Decompress)
    else
      var suffix :- TakeAt(buf, pos, suffixes[0]);
      var value := prev[..prefixes[0]] + suffix;
      Prepend([value], Rebuilt(buf, pos + suffixes[0], prefixes[1..], suffixes[1..], value))
  }

  function ByteArray(bytes: seq<Byte>): Result<seq<seq<Byte>>> {
    var (prefixes, p) :- DeltaAt(bytes, 0, 32);
    var (suffixes, q) :- DeltaAt(bytes, p, 32);
    if |prefixes| != |suffixes| then Err(Decompress) else Rebuilt(bytes, q, prefixes, suffixes, [])
  }

  // ----- the decoders -----

  lemma SliceStep(buf: seq<Byte>, pos: nat, lengths: seq<int>, done: seq<seq<Byte>>, whole: Result<seq<seq<Byte>>>)
    requires pos <= |buf| && lengths != [] && whole == Prepend(done, Slices(buf, pos, lengths))
    ensures if lengths[0] < 0 then whole == Err(Decompress)
            else
              var slice := TakeAt(buf, pos, lengths[0]);
              if slice.Err? then whole == Err(slice.error)
              else whole == Prepend(done + [slice.value], Slices(buf, pos + lengths[0], lengths[1..]))
  {
    if lengths[0] >= 0 && TakeAt(buf, pos, lengths[0]).Ok? {
      PrependTwice(done, [TakeAt(buf, pos, lengths[0]).value], Slices(buf, pos + lengths[0], lengths[1..]));
    }
  }

  /** `decode_delta_length_byte_array`. */
  method DecodeDeltaLengthByteArray(bytes: seq<Byte>) returns (r: Result<seq<seq<Byte>>>)
    ensures r == LengthArray(bytes)
  {
    hide DeltaAt, Slices;
    var cur := new Cursor(bytes);
    var lengths := DecodeDeltaFrom(cur, 32);
    if lengths.Err? {
      return Err(lengths.error);
    }
    var out := [];
    ghost var whole := Slices(bytes, cur.pos, lengths.value);
    PrependNothing(whole);
    var rest := lengths.value;
    while rest != []
      invariant cur.Valid() && fresh(cur) && cur.buf == bytes
      invariant whole == Prepend(out, Slices(bytes, cur.pos, rest))
      decreases |rest|
    {
      SliceStep(bytes, cur.pos, rest, out, whole);
      if rest[0] < 0 {
        return Err(Decompress);
      }
      var slice :- cur.Take(rest[0]);
      out := out + [slice];
      rest := rest[1..];
    }
    NoSlices(bytes, cur.pos);
    assert out + [] == out;
    return Ok(out);
  }

  lemma NoSlices(buf: seq<Byte>, pos: nat)
    requires pos <= |buf|
    ensures Slices(buf, pos, []) == Ok([])
  {
  }

  lemma RebuildStep(buf: seq<Byte>, pos: nat, prefixes: seq<int>, suffixes: seq<int>, prev: seq<Byte>,
                    done: seq<seq<Byte>>, whole: Result<seq<seq<Byte>>>)
    requires pos <= |buf| && |prefixes| == |suffixes| > 0
    requires whole == Prepend(done, Rebuilt(buf, pos, prefixes, suffixes, prev))
    ensures if prefixes[0] < 0 || suffixes[0] < 0 || prefixes[0] > |prev| then whole == Err(Decompress)
            else
              var suffix := TakeAt(buf, pos, suffixes[0]);
              if suffix.Err? then whole == Err(suffix.error)
              else
                var value := prev[..prefixes[0]] + suffix.value;
                whole == Prepend(done + [value], Rebuilt(buf, pos + suffixes[0], prefixes[1..], suffixes[1..], value))
  {
    if !(prefixes[0] < 0 || suffixes[0] < 0 || prefixes[0] > |prev|) && TakeAt(buf, pos, suffixes[0]).Ok? {
      var value := prev[..prefixes[0]] + TakeAt(buf, pos, suffixes[0]).value;
      PrependTwice(done, [value], Rebuilt(buf, pos + suffixes[0], prefixes[1..], suffixes[1..], value));
    }
  }

  lemma NothingRebuilt(buf: seq<Byte>, pos: nat, prev: seq<Byte>)
    requires pos <= |buf|
    ensures Rebuilt(buf, pos, [], [], prev) == Ok([])
  {
  }

  /** `decode_delta_byte_array`. */
  method DecodeDeltaByteArray(bytes: seq<Byte>) returns (r: Result<seq<seq<Byte>>>)
    ensures r == ByteArray(bytes)
  {
    hide DeltaAt, Rebuilt;
    var cur := new Cursor(bytes);
    var prefixes := DecodeDeltaFrom(cur, 32);
    if prefixes.Err? {
      return Err(prefixes.error);
    }
    var suffixes := DecodeDeltaFrom(cur, 32);
    if suffixes.Err? {
      return Err(suffixes.error);
    }
    if |prefixes.value| != |suffixes.value| {
      return Err(Decompress);
    }
    var out, prev := [], [];
    ghost var whole := Rebuilt(bytes, cur.pos, prefixes.value, suffixes.value, []);
    PrependNothing(whole);
    var pfx, sfx := prefixes.value, suffixes.value;
    while pfx != []
      invariant cur.Valid() && fresh(cur) && cur.buf == bytes && |pfx| == |sfx|
      invariant whole == Prepend(out, Rebuilt(bytes, cur.pos, pfx, sfx, prev))
      decreases |pfx|
    {
      RebuildStep(bytes, cur.pos, pfx, sfx, prev, out, whole);
      if pfx[0] < 0 || sfx[0] < 0 {
        return Err(Decompress);
      }
      if pfx[0] > |prev| {
        return Err(Decompress);
      }
      var suffix :- cur.Take(sfx[0]);
      prev := prev[..pfx[0]] + suffix;
      out := out + [prev];
      pfx, sfx := pfx[1..], sfx[1..];
    }
    NothingRebuilt(bytes, cur.pos, prev);
    assert sfx == [] && out + [] == out;
    return Ok(out);
  }

  // ----- a stream decodes the same wherever it lies -----

  lemma ZigzagLocal(p: seq<Byte>, pos: nat, q: seq<Byte>, off: nat, width: nat)
    requires Inside(p, q, off) && pos <= |p| && ZigzagAt(p, pos, width).Ok?
    ensures ZigzagAt(q, off + pos, width) == Ok((ZigzagAt(p, pos, width).value.0, off + ZigzagAt(p, pos, width).value.1))
  {
    hide UvarintAt, Low;
    UvarintLocal(p, pos, q, off);
  }

  lemma SliceLocal(p: seq<Byte>, pos: nat, q: seq<Byte>, off: nat, n: nat)
    requires Inside(p, q, off) && pos + n <= |p|
    ensures off + pos + n <= |q| && q[off + pos..off + pos + n] == p[pos..pos + n]
  {
    var a, b := q[off + pos..off + pos + n], p[pos..pos + n];
    forall i | 0 <= i < n
      ensures a[i] == b[i]
    {
      InsideAt(p, q, off, pos + i);
    }
  }

  lemma {:induction false} MiniBlocksLocal(p: seq<Byte>, pos: nat, q: seq<Byte>, off: nat, widths: seq<Byte>, mini: nat,
                                           minDelta: int, width: nat, n: nat)
    requires Inside(p, q, off) && pos <= |p| && MiniBlocks(p, pos, widths, mini, minDelta, width, n).Ok?
    ensures var here := MiniBlocks(p, pos, widths, mini, minDelta, width, n).value;
            MiniBlocks(q, off + pos, widths, mini, minDelta, width, n) == Ok((here.0, off + here.1))
    decreases |widths|
  {
    hide Inside, Shifted, Unpacked, BodyBytes, WholeBody;
    InsideLength(p, q, off);
    if widths != [] && n > 0 {
      var size := BodyBytes(mini, widths[0]);
      SliceLocal(p, pos, q, off, size);
      var here := Shifted(minDelta, Unpacked(p[pos..pos + size], Min(n, mini), widths[0]));
      MiniBlocksLocal(p, pos + size, q, off, widths[1..], mini, minDelta, width, n - |here|);
      assert off + (pos + size) == off + pos + size;
    }
  }

  lemma InsideLength(p: seq<Byte>, q: seq<Byte>, off: nat)
    requires Inside(p, q, off)
    ensures off + |p| <= |q|
  {
  }

  lemma WidthsLocal(p: seq<Byte>, pos: nat, q: seq<Byte>, off: nat, minis: nat)
    requires Inside(p, q, off) && pos <= |p| && WidthsAt(p, pos, minis).Ok?
    ensures pos + minis <= |p| && off + pos + minis <= |q|
    ensures WidthsAt(q, off + pos, minis) == WidthsAt(p, pos, minis)
  {
    SliceLocal(p, pos, q, off, minis);
  }

  lemma {:induction false} IncrementsLocal(p: seq<Byte>, pos: nat, q: seq<Byte>, off: nat, mini: nat, minis: nat,
                                           width: nat, n: nat)
    requires Inside(p, q, off) && pos <= |p| && Increments(p, pos, mini, minis, width, n).Ok?
    ensures off + pos <= |q|
    ensures var all := Increments(p, pos, mini, minis, width, n).value;
            Increments(q, off + pos, mini, minis, width, n) == Ok((all.0, off + all.1))
    decreases |p| - pos
  {
    hide Inside, ZigzagAt, MiniBlocks, WidthsAt;
    InsideLength(p, q, off);
    if n > 0 {
      ZigzagLocal(p, pos, q, off, 64);
      var (minDelta, next) := ZigzagAt(p, pos, 64).value;
      WidthsLocal(p, next, q, off, minis);
      var widths := WidthsAt(p, next, minis).value;
      MiniBlocksLocal(p, next + minis, q, off, widths, mini, minDelta, width, n);
      assert off + (next + minis) == off + next + minis;
      var (here, end) := MiniBlocks(p, next + minis, widths, mini, minDelta, width, n).value;
      IncrementsLocal(p, end, q, off, mini, minis, width, n - |here|);
    }
  }

  lemma HeaderLocal(p: seq<Byte>, pos: nat, q: seq<Byte>, off: nat, width: nat)
    requires Inside(p, q, off) && pos <= |p| && HeaderAt(p, pos, width).Ok?
    ensures off + pos <= |q|
    ensures HeaderAt(q, off + pos, width) == Ok((HeaderAt(p, pos, width).value.0, off + HeaderAt(p, pos, width).value.1))
  {
    hide Inside, UvarintAt, ZigzagAt;
    InsideLength(p, q, off);
    UvarintLocal(p, pos, q, off);
    var a := UvarintAt(p, pos).value.1;
    UvarintLocal(p, a, q, off);
    var b := UvarintAt(p, a).value.1;
    UvarintLocal(p, b, q, off);
    ZigzagLocal(p, UvarintAt(p, b).value.1, q, off, width);
  }

  /** A delta stream is self-delimiting: bytes before and after it change nothing, and the cursor stops
      at the same place in it. */
  lemma DeltaLocal(p: seq<Byte>, pos: nat, q: seq<Byte>, off: nat, width: nat)
    requires Inside(p, q, off) && pos <= |p| && DeltaAt(p, pos, width).Ok?
    ensures off + pos <= |q|
    ensures DeltaAt(q, off + pos, width) == Ok((DeltaAt(p, pos, width).value.0, off + DeltaAt(p, pos, width).value.1))
  {
    hide Inside, HeaderAt, Increments, Running;
    HeaderLocal(p, pos, q, off, width);
    var (h, e) := HeaderAt(p, pos, width).value;
    if h.count > 0 {
      IncrementsLocal(p, e, q, off, h.mini, h.minis, width, h.count - 1);
    }
  }

  // ----- round trips -----

  function Lengths(strings: seq<seq<Byte>>): (r: seq<int>)
    ensures |r| == |strings|
  {
    if strings == [] then [] else [|strings[0]|] + Lengths(strings[1..])
  }

  lemma {:induction false} SlicesOfConcat(buf: seq<Byte>, pos: nat, strings: seq<seq<Byte>>)
    requires pos <= |buf| && buf[pos..] == Concat(strings)
    ensures Slices(buf, pos, Lengths(strings)) == Ok(strings)
    decreases |strings|
  {
    if strings != [] {
      var n := |strings[0]|;
      assert buf[pos..][..n] == strings[0] == buf[pos..pos + n];
      assert buf[pos + n..] == buf[pos..][n..] == Concat(strings[1..]);
      SlicesOfConcat(buf, pos + n, strings[1..]);
      assert Lengths(strings)[1..] == Lengths(strings[1..]);
      assert [strings[0]] + strings[1..] == strings;
    }
  }

  /** Any stream of the lengths, followed by the values, decodes to the values. */
  lemma LengthArrayRoundTrip(stream: seq<Byte>, strings: seq<seq<Byte>>)
    requires DeltaAt(stream, 0, 32) == Ok((Lengths(strings), |stream|))
    ensures LengthArray(stream + Concat(strings)) == Ok(strings)
  {
    hide DeltaAt, Concat, Slices;
    var buf := stream + Concat(strings);
    assert Inside(stream, buf, 0);
    DeltaLocal(stream, 0, buf, 0, 32);
    SlicesOfConcat(buf, |stream|, strings);
  }

  /** Prefix lengths an incremental writer may choose: no longer than what two consecutive values share. */
  ghost predicate Shared(prefixes: seq<int>, strings: seq<seq<Byte>>, prev: seq<Byte>)
    decreases |strings|
  {
    && |prefixes| == |strings|
    && (strings != [] ==>
          && 0 <= prefixes[0] <= |prev|
          && prefixes[0] <= |strings[0]|
          && prev[..prefixes[0]] == strings[0][..prefixes[0]]
          && Shared(prefixes[1..], strings[1..], strings[0]))
  }

  function Suffixes(prefixes: seq<int>, strings: seq<seq<Byte>>): (r: seq<seq<Byte>>)
    ensures |r| == |strings|
    decreases |strings|
  {
    if strings == [] then []
    else if prefixes == [] then strings
    else [if 0 <= prefixes[0] <= |strings[0]| then strings[0][prefixes[0]..] else []] + Suffixes(prefixes[1..], strings[1..])
  }

  lemma SuffixSplit(buf: seq<Byte>, pos: nat, head: seq<Byte>, tail: seq<Byte>)
    requires pos <= |buf| && buf[pos..] == head + tail
    ensures pos + |head| <= |buf| && buf[pos..pos + |head|] == head && buf[pos + |head|..] == tail
  {
    assert buf[pos..pos + |head|] == buf[pos..][..|head|];
    assert buf[pos + |head|..] == buf[pos..][|head|..];
  }

  lemma {:induction false} RebuiltFromSuffixes(buf: seq<Byte>, pos: nat, prefixes: seq<int>, strings: seq<seq<Byte>>, prev: seq<Byte>)
    requires pos <= |buf| && Shared(prefixes, strings, prev) && buf[pos..] == Concat(Suffixes(prefixes, strings))
    ensures |Lengths(Suffixes(prefixes, strings))| == |prefixes|
    ensures Rebuilt(buf, pos, prefixes, Lengths(Suffixes(prefixes, strings)), prev) == Ok(strings)
    decreases |strings|
  {
    hide Rebuilt;
    var sfx := Suffixes(prefixes, strings);
    if strings == [] {
      NothingRebuilt(buf, pos, prev);
    } else {
      var suffix, rest := strings[0][prefixes[0]..], Suffixes(prefixes[1..], strings[1..]);
      assert sfx == [suffix] + rest && sfx[1..] == rest;
      assert buf[pos..] == suffix + Concat(rest);
      hide Concat;
      SuffixSplit(buf, pos, suffix, Concat(rest));
      RebuiltFromSuffixes(buf, pos + |suffix|, prefixes[1..], strings[1..], strings[0]);
      var lengths := Lengths(sfx);
      assert lengths[0] == |suffix| && lengths[1..] == Lengths(rest);
      hide Lengths, Suffixes, Shared;
      var whole := Rebuilt(buf, pos, prefixes, lengths, prev);
      PrependNothing(whole);
      RebuildStep(buf, pos, prefixes, lengths, prev, [], whole);
      assert prev[..prefixes[0]] + suffix == strings[0];
      assert [] + [strings[0]] + strings[1..] == strings;
    }
  }

  /** Two streams back to back are read one after the other. */
  lemma BothStreams(ps: seq<Byte>, ss: seq<Byte>, prefixes: seq<int>, suffixes: seq<int>, data: seq<Byte>)
    requires DeltaAt(ps, 0, 32) == Ok((prefixes, |ps|)) && DeltaAt(ss, 0, 32) == Ok((suffixes, |ss|))
    ensures DeltaAt(ps + ss + data, 0, 32) == Ok((prefixes, |ps|))
    ensures DeltaAt(ps + ss + data, |ps|, 32) == Ok((suffixes, |ps| + |ss|))
  {
    hide DeltaAt;
    var buf := ps + ss + data;
    assert buf[0..|ps|] == ps && buf[|ps|..|ps| + |ss|] == ss;
    assert Inside(ps, buf, 0) && Inside(ss, buf, |ps|);
    hide Inside;
    DeltaLocal(ps, 0, buf, 0, 32);
    DeltaLocal(ss, 0, buf, |ps|, 32);
  }

  /** Prefix lengths, suffix lengths and suffix bytes, each stream written in any way: the decoder
      returns the original values. */
  lemma ByteArrayRoundTrip(ps: seq<Byte>, ss: seq<Byte>, prefixes: seq<int>, strings: seq<seq<Byte>>)
    requires Shared(prefixes, strings, [])
    requires DeltaAt(ps, 0, 32) == Ok((prefixes, |ps|))
    requires DeltaAt(ss, 0, 32) == Ok((Lengths(Suffixes(prefixes, strings)), |ss|))
    ensures ByteArray(ps + ss + Concat(Suffixes(prefixes, strings))) == Ok(strings)
  {
    hide DeltaAt, Concat, Rebuilt, Shared, Suffixes, Lengths;
    var data := Concat(Suffixes(prefixes, strings));
    var buf := ps + ss + data;
    assert buf[|ps| + |ss|..] == data;
    BothStreams(ps, ss, prefixes, Lengths(Suffixes(prefixes, strings)), data);
    RebuiltFromSuffixes(buf, |ps| + |ss|, prefixes, strings, []);
  }

  // ----- exactly when they succeed -----

  /** No length is negative, and together they need no more than `room` bytes. */
  predicate LengthsFit(lengths: seq<int>, room: nat) {
    lengths == [] || (0 <= lengths[0] <= room && LengthsFit(lengths[1..], room - lengths[0]))
  }

  /** No length is negative, no prefix is longer than the value before it, of `have` bytes, and the
      suffixes need no more than `room` bytes. */
  predicate PartsFit(prefixes: seq<int>, suffixes: seq<int>, have: nat, room: nat)
    requires |prefixes| == |suffixes|
  {
    prefixes == [] ||
    (&& 0 <= prefixes[0] <= have && 0 <= suffixes[0] <= room
     && PartsFit(prefixes[1..], suffixes[1..], prefixes[0] + suffixes[0], room - suffixes[0]))
  }

  /** Bytes behind a stream of lengths become values exactly when the lengths fit them. */
  lemma LengthArrayExactly(stream: seq<Byte>, lengths: seq<int>, data: seq<Byte>)
    requires DeltaAt(stream, 0, 32) == Ok((lengths, |stream|))
    ensures LengthArray(stream + data).Ok? <==> LengthsFit(lengths, |data|)
  {
    hide DeltaAt, Slices, LengthsFit;
    DeltaLocal(stream, 0, stream + data, 0, 32);
    SlicesExactly(stream + data, |stream|, lengths);
  }

  lemma {:induction false} SlicesExactly(buf: seq<Byte>, pos: nat, lengths: seq<int>)
    requires pos <= |buf|
    ensures Slices(buf, pos, lengths).Ok? <==> LengthsFit(lengths, |buf| - pos)
    decreases |lengths|
  {
    if lengths != [] && 0 <= lengths[0] <= |buf| - pos {
      SlicesExactly(buf, pos + lengths[0], lengths[1..]);
    }
  }

  /** Bytes behind two streams become values exactly when there are as many prefixes as suffixes and
      they fit. */
  lemma ByteArrayExactly(ps: seq<Byte>, ss: seq<Byte>, prefixes: seq<int>, suffixes: seq<int>, data: seq<Byte>)
    requires DeltaAt(ps, 0, 32) == Ok((prefixes, |ps|)) && DeltaAt(ss, 0, 32) == Ok((suffixes, |ss|))
    ensures ByteArray(ps + ss + data).Ok? <==> |prefixes| == |suffixes| && PartsFit(prefixes, suffixes, 0, |data|)
    ensures |prefixes| != |suffixes| ==> ByteArray(ps + ss + data) == Err(Decompress)
  {
    hide DeltaAt, Rebuilt, PartsFit;
    BothStreams(ps, ss, prefixes, suffixes, data);
    if |prefixes| == |suffixes| {
      RebuiltExactly(ps + ss + data, |ps| + |ss|, prefixes, suffixes, []);
    }
  }

  lemma {:induction false} RebuiltExactly(buf: seq<Byte>, pos: nat, prefixes: seq<int>, suffixes: seq<int>, prev: seq<Byte>)
    requires pos <= |buf| && |prefixes| == |suffixes|
    ensures Rebuilt(buf, pos, prefixes, suffixes, prev).Ok? <==> PartsFit(prefixes, suffixes, |prev|, |buf| - pos)
    decreases |prefixes|
  {
    if prefixes != [] && 0 <= prefixes[0] <= |prev| && 0 <= suffixes[0] <= |buf| - pos {
      var value := prev[..prefixes[0]] + TakeAt(buf, pos, suffixes[0]).value;
      RebuiltExactly(buf, pos + suffixes[0], prefixes[1..], suffixes[1..], value);
    }
  }
}
