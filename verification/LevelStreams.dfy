/** The level streams in front of a v1 data page's values, and the fast path that only skips them. */
module LevelStreams {
  import opened Bits
  import opened Wire
  import opened DictStream
  import opened Packing
  import opened Rle

  /** Significant bits: `32 - leading_zeros`. */
  function BitLength(x: nat): nat {
    if x == 0 then 0 else 1 + BitLength(x / 2)
  }

  /** `bit_width_for`: the least width that holds `0..=maxLevel`. */
  function BitWidthFor(maxLevel: nat): nat {
    BitLength(maxLevel)
  }

  lemma {:induction false} BitWidthIsLeast(maxLevel: nat, w: nat)
    ensures maxLevel <= Mask(w) <==> BitWidthFor(maxLevel) <= w
    decreases maxLevel
  {
    if maxLevel > 0 && w > 0 {
      BitWidthIsLeast(maxLevel / 2, w - 1);
    }
  }

  lemma BitWidthOfLevel(maxLevel: nat)
    requires maxLevel < 0x1_0000
    ensures BitWidthFor(maxLevel) <= 16
  {
    hide BitLength, Mask;
    MaskValues();
    BitWidthIsLeast(maxLevel, 16);
  }

  function Truncated(levels: seq<nat>): (r: seq<nat>)
    ensures |r| == |levels|
  {
    if levels == [] then [] else [levels[0] % 0x1_0000] + Truncated(levels[1..])
  }

  /** A length-prefixed stream's end, when the prefix and the bytes it promises are there. */
  function PrefixedEnd(body: seq<Byte>): (r: Result<nat>)
    ensures r.Ok? ==> 4 <= r.value <= |body|
  {
    if |body| < 4 then Err(Decompress)
    else
      var len := LeNat(body[..4]);
      if |body| < 4 + len then Err(Decompress) else Ok(4 + len)
  }

  /** `decode_levels`; at width 0 nothing is on the wire. */
  function LevelsAt(body: seq<Byte>, bw: nat, n: nat): (r: Result<(seq<nat>, nat)>)
    ensures r.Ok? ==> r.value.1 <= |body|
  {
    if bw == 0 then Ok((seq(n, _ => 0), 0))
    else
      var end :- PrefixedEnd(body);
      var levels :- Decoded(body[4..end], bw, n);
      Ok((Truncated(levels), end))
  }

  method DecodeLevels(body: seq<Byte>, bw: nat, n: nat) returns (r: Result<(seq<nat>, nat)>)
    requires bw <= 16
    ensures r == LevelsAt(body, bw, n)
  {
    hide Decoded, LeNat, StreamStays;
    if bw == 0 {
      return Ok((seq(n, _ => 0), 0));
    }
    if |body| < 4 {
      return Err(Decompress);
    }
    var len := LeNat(body[..4]);
    var end := 4 + len;
    if |body| < end {
      return Err(Decompress);
    }
    StaysAtFittingWidths(body[4..end], 0, bw, n);
    var read := DecodeRleBitPacked(body[4..end], bw, n);
    var values :- read.result;
    var levels := [];
    assert values[0..] == values;
    for k := 0 to |values|
      invariant levels + Truncated(values[k..]) == Truncated(values)
    {
      assert values[k..][0] == values[k] && values[k..][1..] == values[k + 1..];
      levels := levels + [values[k] % 0x1_0000];
    }
    assert values[|values|..] == [] && levels + [] == levels;
    return Ok((levels, end));
  }

  /** `parse_v1_data_page_body`: repetition levels, definition levels, and where the values start. */
  function ParsedV1(body: seq<Byte>, maxRep: nat, maxDef: nat, n: nat): Result<(seq<nat>, seq<nat>, nat)> {
    var (rep, a) :- LevelsAt(body, BitWidthFor(maxRep), n);
    var (def, b) :- LevelsAt(body[a..], BitWidthFor(maxDef), n);
    Ok((rep, def, a + b))
  }

  method ParseV1DataPageBody(body: seq<Byte>, maxRep: nat, maxDef: nat, n: nat)
    returns (r: Result<(seq<nat>, seq<nat>, seq<Byte>)>)
    requires maxRep < 0x1_0000 && maxDef < 0x1_0000
    ensures ParsedV1(body, maxRep, maxDef, n).Err? ==> r == Err(ParsedV1(body, maxRep, maxDef, n).error)
    ensures ParsedV1(body, maxRep, maxDef, n).Ok? ==>
              var (rep, def, off) := ParsedV1(body, maxRep, maxDef, n).value;
              off <= |body| && r == Ok((rep, def, body[off..]))
  {
    hide LevelsAt, BitLength;
    BitWidthOfLevel(maxRep);
    BitWidthOfLevel(maxDef);
    var off := 0;
    assert body[0..] == body;
    var rep :- DecodeLevels(body[off..], BitWidthFor(maxRep), n);
    off := off + rep.1;
    var def :- DecodeLevels(body[off..], BitWidthFor(maxDef), n);
    off := off + def.1;
    return Ok((rep.0, def.0, body[off..]));
  }

  /** Where the level streams of the given widths end, without decoding them. */
  function Skipped(body: seq<Byte>, off: nat, widths: seq<nat>): (r: Result<nat>)
    requires off <= |body|
    ensures r.Ok? ==> off <= r.value <= |body|
    decreases |widths|
  {
    if widths == [] then Ok(off)
    else if widths[0] == 0 then Skipped(body, off, widths[1..])
    else
      var end :- PrefixedEnd(body[off..]);
      Skipped(body, off + end, widths[1..])
  }

  /** `skip_v1_level_prefixes`. */
  method SkipV1LevelPrefixes(body: seq<Byte>, maxRep: nat, maxDef: nat) returns (r: Result<nat>)
    ensures r == Skipped(body, 0, [BitWidthFor(maxRep), BitWidthFor(maxDef)])
  {
    hide LeNat, BitLength;
    var widths := [BitWidthFor(maxRep), BitWidthFor(maxDef)];
    var off: nat := 0;
    assert widths[0..] == widths;
    for k := 0 to 2
      invariant off <= |body| && Skipped(body, 0, widths) == Skipped(body, off, widths[k..])
    {
      assert widths[k..][0] == widths[k] && widths[k..][1..] == widths[k + 1..];
      if widths[k] == 0 {
        continue;
      }
      if |body| < off + 4 {
        return Err(Decompress);
      }
      assert body[off..][..4] == body[off..off + 4];
      var len := LeNat(body[off..off + 4]);
      var end := off + 4 + len;
      if |body| < end {
        return Err(Decompress);
      }
      off := end;
    }
    return Ok(off);
  }

  /** The fast path agrees with the full parse: where the parse succeeds, skipping finds the same
      offset; and the parse fails only where skipping does or a stream itself is broken. */
  lemma SkipAgreesWithParse(body: seq<Byte>, maxRep: nat, maxDef: nat, n: nat)
    ensures var skipped := Skipped(body, 0, [BitWidthFor(maxRep), BitWidthFor(maxDef)]);
            var parsed := ParsedV1(body, maxRep, maxDef, n);
            && (parsed.Ok? ==> skipped == Ok(parsed.value.2))
            && (skipped.Err? ==> parsed.Err?)
  {
    hide BitLength, Decoded;
    var a, b := BitWidthFor(maxRep), BitWidthFor(maxDef);
    var widths := [a, b];
    assert widths[1..] == [b] && [b][1..] == [] && body[0..] == body;
    SkipOne(body, 0, widths, n);
    var first := LevelsAt(body, a, n);
    if first.Ok? {
      SkipOne(body, first.value.1, [b], n);
    }
  }

  lemma SkipOne(body: seq<Byte>, off: nat, widths: seq<nat>, n: nat)
    requires off <= |body| && widths != []
    ensures var here := LevelsAt(body[off..], widths[0], n);
            && (here.Ok? ==> Skipped(body, off, widths) == Skipped(body, off + here.value.1, widths[1..]))
            && (here.Err? && Skipped(body, off, widths).Ok? ==> widths[0] > 0 && PrefixedEnd(body[off..]).Ok?)
  {
    hide Decoded, LeNat;
  }

  /** Skipping succeeds exactly where a parse for no values does, with its offset. */
  lemma SkipExactly(body: seq<Byte>, maxRep: nat, maxDef: nat)
    requires maxRep < 0x1_0000 && maxDef < 0x1_0000
    ensures var skipped := Skipped(body, 0, [BitWidthFor(maxRep), BitWidthFor(maxDef)]);
            var parsed := ParsedV1(body, maxRep, maxDef, 0);
            if parsed.Ok? then skipped == Ok(parsed.value.2) else skipped == Err(parsed.error)
  {
    hide BitLength, LeNat;
    BitWidthOfLevel(maxRep);
    BitWidthOfLevel(maxDef);
    var a, b := BitWidthFor(maxRep), BitWidthFor(maxDef);
    var widths := [a, b];
    assert widths[1..] == [b] && [b][1..] == [] && body[0..] == body;
    SkipFirst(body, 0, widths);
    var first := LevelsAt(body, a, 0);
    if first.Ok? {
      SkipFirst(body, first.value.1, [b]);
    }
  }

  lemma SkipFirst(body: seq<Byte>, off: nat, widths: seq<nat>)
    requires off <= |body| && widths != [] && widths[0] <= 16
    ensures var here := LevelsAt(body[off..], widths[0], 0);
            Skipped(body, off, widths) == if here.Ok? then Skipped(body, off + here.value.1, widths[1..]) else Err(here.error)
  {
    hide LeNat;
  }

  // ----- levels written and read back -----

  /** One level stream on the wire: its length in four bytes and its runs, or nothing at width 0. */
  function LevelPart(bw: nat, stream: seq<Byte>): seq<Byte> {
    if bw == 0 then [] else LeBytes(|stream|, 4) + stream
  }

  /** `stream` holds `levels`, none of which is above `maxLevel`. */
  predicate Holds(levels: seq<nat>, maxLevel: nat, stream: seq<Byte>) {
    && (forall i :: 0 <= i < |levels| ==> levels[i] <= maxLevel)
    && |stream| < U32_MODULUS
    && (maxLevel > 0 ==> IndexStream(stream, 0, BitWidthFor(maxLevel), |levels|) == Ok(levels))
  }

  /** Repetition levels come first, definition levels second, and what follows them are the values. */
  lemma LevelsRoundTrip(rep: seq<nat>, def: seq<nat>, maxRep: nat, maxDef: nat, repStream: seq<Byte>, defStream: seq<Byte>,
                        values: seq<Byte>)
    requires maxRep < 0x1_0000 && maxDef < 0x1_0000 && |rep| == |def|
    requires Holds(rep, maxRep, repStream) && Holds(def, maxDef, defStream)
    ensures var front := LevelPart(BitWidthFor(maxRep), repStream) + LevelPart(BitWidthFor(maxDef), defStream);
            && ParsedV1(front + values, maxRep, maxDef, |rep|) == Ok((rep, def, |front|))
            && Skipped(front + values, 0, [BitWidthFor(maxRep), BitWidthFor(maxDef)]) == Ok(|front|)
            && (front + values)[|front|..] == values
  {
    hide LevelsAt, LevelPart, Holds, BitLength, Skipped;
    var a, b := LevelPart(BitWidthFor(maxRep), repStream), LevelPart(BitWidthFor(maxDef), defStream);
    var body := a + b + values;
    assert body == a + (b + values) && body[|a|..] == b + values;
    PartRead(rep, maxRep, repStream, b + values);
    PartRead(def, maxDef, defStream, values);
    SkipAgreesWithParse(body, maxRep, maxDef, |rep|);
  }

  lemma PartRead(levels: seq<nat>, maxLevel: nat, stream: seq<Byte>, rest: seq<Byte>)
    requires maxLevel < 0x1_0000 && Holds(levels, maxLevel, stream)
    ensures var part := LevelPart(BitWidthFor(maxLevel), stream);
            LevelsAt(part + rest, BitWidthFor(maxLevel), |levels|) == Ok((levels, |part|))
  {
    hide IndexStream, LeNat, LeBytes, Mask, Truncated;
    var bw := BitWidthFor(maxLevel);
    var part := LevelPart(bw, stream);
    BitWidthOfLevel(maxLevel);
    if bw == 0 {
      BitWidthIsLeast(maxLevel, 0);
      MaskZero();
      assert levels == seq(|levels|, _ => 0);
      assert part + rest == rest;
    } else {
      var head := LeBytes(|stream|, 4);
      MaskValues();
      LeBytesRoundTrip(|stream|, 4);
      var body := part + rest;
      assert body[..4] == head;
      assert body[4..4 + |stream|] == stream;
      BitWidthIsLeast(maxLevel, 0);
      MaskZero();
      SmallLevels(levels);
      if |levels| == 0 {
        assert levels == [];
      }
    }
  }

  lemma {:induction false} SmallLevels(levels: seq<nat>)
    requires forall i :: 0 <= i < |levels| ==> levels[i] < 0x1_0000
    ensures Truncated(levels) == levels
  {
    if levels != [] {
      SmallLevels(levels[1..]);
      assert levels == [levels[0]] + levels[1..];
    }
  }

  /** A reference writer, through the coalescing encoder. */
  method WriteV1Levels(rep: seq<nat>, def: seq<nat>, maxRep: nat, maxDef: nat, values: seq<Byte>) returns (body: seq<Byte>, fits: bool)
    requires maxRep < 0x1_0000 && maxDef < 0x1_0000 && |rep| == |def| < 0x4000_0000_0000_0000
    requires (forall i :: 0 <= i < |rep| ==> rep[i] <= maxRep) && (forall i :: 0 <= i < |def| ==> def[i] <= maxDef)
    ensures fits ==> ParsedV1(body, maxRep, maxDef, |rep|).Ok?
    ensures fits ==> var (r, d, off) := ParsedV1(body, maxRep, maxDef, |rep|).value;
                     r == rep && d == def && off <= |body| && body[off..] == values
  {
    hide BitLength, IndexStream, ParsedV1, LevelPart;
    var repStream := WriteLevels(rep, maxRep);
    var defStream := WriteLevels(def, maxDef);
    fits := |repStream| < U32_MODULUS && |defStream| < U32_MODULUS;
    body := LevelPart(BitWidthFor(maxRep), repStream) + LevelPart(BitWidthFor(maxDef), defStream) + values;
    if fits {
      LevelsRoundTrip(rep, def, maxRep, maxDef, repStream, defStream, values);
    }
  }

  method WriteLevels(levels: seq<nat>, maxLevel: nat) returns (stream: seq<Byte>)
    requires maxLevel < 0x1_0000 && |levels| < 0x4000_0000_0000_0000
    requires forall i :: 0 <= i < |levels| ==> levels[i] <= maxLevel
    ensures maxLevel > 0 ==> IndexStream(stream, 0, BitWidthFor(maxLevel), |levels|) == Ok(levels)
  {
    hide BitLength, IndexStream, Fit, Mask;
    BitWidthOfLevel(maxLevel);
    BitWidthIsLeast(maxLevel, BitWidthFor(maxLevel));
    BitWidthIsLeast(maxLevel, 0);
    MaskZero();
    LevelsFit(levels, BitWidthFor(maxLevel));
    stream := EncodeRleBitPacked(levels, BitWidthFor(maxLevel));
  }

  lemma {:induction false} LevelsFit(levels: seq<nat>, bw: nat)
    requires forall i :: 0 <= i < |levels| ==> levels[i] <= Mask(bw)
    ensures Fit(levels, bw)
  {
    hide Mask;
    if levels != [] {
      LevelsFit(levels[1..], bw);
    }
  }

  /** A stream cut short anywhere is refused. */
  lemma CutStreamRefused(bw: nat, stream: seq<Byte>, k: nat, n: nat)
    requires bw > 0 && |stream| < U32_MODULUS && k < |LevelPart(bw, stream)|
    ensures LevelsAt(LevelPart(bw, stream)[..k], bw, n) == Err(Decompress)
    ensures Skipped(LevelPart(bw, stream)[..k], 0, [bw]) == Err(Decompress)
  {
    hide LeNat, LeBytes, Decoded, Mask;
    var body := LevelPart(bw, stream)[..k];
    MaskValues();
    LeBytesRoundTrip(|stream|, 4);
    if k >= 4 {
      assert body[..4] == LeBytes(|stream|, 4);
    }
    assert body[0..] == body;
  }
}
