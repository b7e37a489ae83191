/** The two readers of a BYTE_ARRAY column chunk whose pages are already fetched and decompressed:
    one owned value per row, and flat bytes with 32-bit offsets. */
module ByteArrays {
  import opened Bits
  import opened Wire
  import opened DictStream
  import opened DictDecode

  datatype Page =
    | Dictionary(body: seq<Byte>)
    | Plain(values: seq<Byte>, numValues: nat)
    | Indexed(values: seq<Byte>, numValues: nat)
    | OtherEncoding
    | Index

  type Rows = seq<seq<Byte>>

  // ----- PLAIN values -----

  /** Length-prefixed values to the end of the buffer. */
  function PlainValues(body: seq<Byte>): Result<Rows>
    decreases |body|
  {
    if body == [] then Ok([])
    else if |body| < 4 then Err(UnexpectedEof(4, |body|))
    else
      var len := LeNat(body[..4]);
      if len > |body| - 4 then Err(UnexpectedEof(len, |body| - 4))
      else Prepend([body[4..4 + len]], PlainValues(body[4 + len..]))
  }

  /** The value at position `at`, or the error there. */
  lemma PlainAt(bytes: seq<Byte>, at: nat, done: Rows)
    requires at < |bytes| && PlainValues(bytes) == Prepend(done, PlainValues(bytes[at..]))
    ensures if |bytes| - at < 4 then PlainValues(bytes) == Err(UnexpectedEof(4, |bytes| - at))
            else
              var len := LeNat(bytes[at..at + 4]);
              if len > |bytes| - at - 4 then PlainValues(bytes) == Err(UnexpectedEof(len, |bytes| - at - 4))
              else PlainValues(bytes) == Prepend(done + [bytes[at + 4..at + 4 + len]], PlainValues(bytes[at + 4 + len..]))
  {
    hide LeNat, PlainValues, Prepend;
    var rest := bytes[at..];
    if |rest| < 4 {
      ShortStep(rest, done, PlainValues(bytes));
    } else {
      assert rest[..4] == bytes[at..at + 4];
      var len: nat := LeNat(bytes[at..at + 4]);
      if len > |rest| - 4 {
        LongStep(rest, done, PlainValues(bytes), len);
      } else {
        RestSlice(bytes, at, len);
        WholeStep(rest, done, PlainValues(bytes), len, bytes[at + 4..at + 4 + len], bytes[at + 4 + len..]);
      }
    }
  }

  lemma ShortStep(body: seq<Byte>, done: Rows, whole: Result<Rows>)
    requires 0 < |body| < 4 && whole == Prepend(done, PlainValues(body))
    ensures whole == Err(UnexpectedEof(4, |body|))
  {
  }

  lemma LongStep(body: seq<Byte>, done: Rows, whole: Result<Rows>, len: nat)
    requires |body| >= 4 && LeNat(body[..4]) == len > |body| - 4 && whole == Prepend(done, PlainValues(body))
    ensures whole == Err(UnexpectedEof(len, |body| - 4))
  {
    hide LeNat;
  }

  lemma WholeStep(body: seq<Byte>, done: Rows, whole: Result<Rows>, len: nat, value: seq<Byte>, rest: seq<Byte>)
    requires |body| >= 4 && LeNat(body[..4]) == len <= |body| - 4 && whole == Prepend(done, PlainValues(body))
    requires value == body[4..4 + len] && rest == body[4 + len..]
    ensures whole == Prepend(done + [value], PlainValues(rest))
  {
    hide LeNat;
    PrependTwice(done, [value], PlainValues(rest));
  }

  /** `decode_plain_byte_array`. */
  method DecodePlainByteArray(bytes: seq<Byte>) returns (r: Result<Rows>)
    ensures r == PlainValues(bytes)
  {
    hide PlainValues, LeNat;
    var cur := new Cursor(bytes);
    var out := [];
    PrependNothing(PlainValues(bytes));
    assert bytes[0..] == bytes;
    while cur.pos < |cur.buf|
      invariant cur.Valid() && fresh(cur) && cur.buf == bytes
      invariant PlainValues(bytes) == Prepend(out, PlainValues(bytes[cur.pos..]))
      decreases |bytes| - cur.pos
    {
      PlainAt(bytes, cur.pos, out);
      var prefix :- cur.Take(4);
      var value :- cur.Take(LeNat(prefix));
      out := out + [value];
    }
    NoPlain(bytes[cur.pos..]);
    assert out + [] == out;
    return Ok(out);
  }

  lemma NoPlain(body: seq<Byte>)
    requires body == []
    ensures PlainValues(body) == Ok([])
  {
  }

  /** Values on the wire: four bytes of length, then the bytes. */
  function PlainText(rows: Rows): seq<Byte> {
    if rows == [] then [] else LeBytes(|rows[0]|, 4) + rows[0] + PlainText(rows[1..])
  }

  predicate ShortRows(rows: Rows) {
    rows == [] || (|rows[0]| < U32_MODULUS && ShortRows(rows[1..]))
  }

  /** What is written is read back. */
  lemma {:induction false} PlainRoundTrip(rows: Rows)
    requires ShortRows(rows)
    ensures PlainValues(PlainText(rows)) == Ok(rows)
    decreases |rows|
  {
    hide LeNat, LeBytes, Mask, PlainValues;
    var body := PlainText(rows);
    PrependNothing(PlainValues(body));
    if rows == [] {
      NoPlain(body);
    } else {
      var more := PlainText(rows[1..]);
      PlainRoundTrip(rows[1..]);
      MaskValues();
      LeBytesRoundTrip(|rows[0]|, 4);
      ValueInFront(rows[0], more);
      WholeStep(body, [], PlainValues(body), |rows[0]|, rows[0], more);
      assert [] + [rows[0]] + rows[1..] == rows;
    }
  }

  lemma ValueInFront(row: seq<Byte>, more: seq<Byte>)
    ensures var body := LeBytes(|row|, 4) + row + more;
            && |body| >= 4 && body[..4] == LeBytes(|row|, 4)
            && |row| <= |body| - 4 && body[4..4 + |row|] == row && body[4 + |row|..] == more
  {
    hide LeBytes;
  }

  /** And nothing else is read: a page that decodes is the text of its values. */
  lemma {:induction false} PlainIsText(body: seq<Byte>)
    requires PlainValues(body).Ok?
    ensures body == PlainText(PlainValues(body).value) && ShortRows(PlainValues(body).value)
    decreases |body|
  {
    hide LeNat, LeBytes, Mask, PlainValues, PlainText, ShortRows;
    if body == [] {
      NoPlain(body);
      NoText();
    } else {
      PlainShape(body);
      var len: nat := LeNat(body[..4]);
      LeNatRoundTrip(body[..4]);
      LeNatBound(body[..4]);
      MaskValues();
      var row, rest := body[4..4 + len], body[4 + len..];
      PlainUnfold(body, len, row, rest);
      PlainIsText(rest);
      TextUnfold(row, PlainValues(rest).value);
      ThreeParts(body, len);
    }
  }

  lemma NoText()
    ensures PlainText([]) == [] && ShortRows([])
  {
  }

  lemma PlainShape(body: seq<Byte>)
    requires body != [] && PlainValues(body).Ok?
    ensures |body| >= 4 && LeNat(body[..4]) <= |body| - 4
  {
    hide LeNat;
  }

  lemma TextUnfold(row: seq<Byte>, rows: Rows)
    ensures PlainText([row] + rows) == LeBytes(|row|, 4) + row + PlainText(rows)
    ensures |row| < U32_MODULUS && ShortRows(rows) ==> ShortRows([row] + rows)
  {
    hide LeBytes;
    assert ([row] + rows)[1..] == rows;
  }

  lemma ThreeParts(body: seq<Byte>, len: nat)
    requires 4 + len <= |body|
    ensures body == body[..4] + body[4..4 + len] + body[4 + len..]
  {
  }

  lemma PlainUnfold(body: seq<Byte>, len: nat, row: seq<Byte>, rest: seq<Byte>)
    requires |body| >= 4 && len == LeNat(body[..4]) <= |body| - 4 && row == body[4..4 + len] && rest == body[4 + len..]
    requires PlainValues(body).Ok?
    ensures PlainValues(rest).Ok? && PlainValues(body).value == [row] + PlainValues(rest).value
    ensures ([row] + PlainValues(rest).value)[1..] == PlainValues(rest).value
  {
    hide LeNat;
  }

  // ----- the row reader -----

  datatype RowState = RowState(dict: Rows, out: Rows)

  function Gathered(dict: Rows, idx: seq<nat>): Result<Rows> {
    if idx == [] then Ok([])
    else if idx[0] >= |dict| then Err(InvalidInput)
    else Prepend([dict[idx[0]]], Gathered(dict, idx[1..]))
  }

  function RowStep(page: Page, st: RowState): Result<RowState> {
    match page
    case Dictionary(body) =>
      var dict :- PlainValues(body);
      Ok(st.(dict := dict))
    case Plain(values, _) =>
      var rows :- PlainValues(values);
      Ok(st.(out := st.out + rows))
    case Indexed(values, n) =>
      if st.dict == [] then Err(InvalidInput)
      else
        var idx :- PageIndices(values, n);
        var rows :- Gathered(st.dict, idx);
        Ok(st.(out := st.out + rows))
    case OtherEncoding => Err(InvalidInput)
    case Index => Ok(st)
  }

  /** Pages until enough rows are out; checked after every page. */
  function RunRows(pages: seq<Page>, st: RowState, total: nat): Result<Rows> {
    if pages == [] then Ok(st.out)
    else
      var next :- RowStep(pages[0], st);
      if |next.out| >= total then Ok(next.out) else RunRows(pages[1..], next, total)
  }

  lemma GatherStep(dict: Rows, idx: seq<nat>, k: nat, done: Rows, whole: Result<Rows>)
    requires k < |idx| && whole == Prepend(done, Gathered(dict, idx[k..]))
    ensures if idx[k] >= |dict| then whole == Err(InvalidInput)
            else whole == Prepend(done + [dict[idx[k]]], Gathered(dict, idx[k + 1..]))
  {
    assert idx[k..][1..] == idx[k + 1..];
    if idx[k] < |dict| {
      PrependTwice(done, [dict[idx[k]]], Gathered(dict, idx[k + 1..]));
    }
  }

  method GatherRows(dict: Rows, idx: seq<nat>, out0: Rows) returns (r: Outcome, out: Rows)
    ensures r == Status(Gathered(dict, idx))
    ensures r.Pass? ==> out == out0 + Gathered(dict, idx).value
  {
    hide Gathered;
    out := out0;
    ghost var done := [];
    ghost var whole := Gathered(dict, idx);
    PrependNothing(whole);
    assert idx[0..] == idx;
    for k := 0 to |idx|
      invariant whole == Prepend(done, Gathered(dict, idx[k..])) && out == out0 + done
    {
      GatherStep(dict, idx, k, done, whole);
      if idx[k] >= |dict| {
        return Fail(InvalidInput), out;
      }
      out := out + [dict[idx[k]]];
      done := done + [dict[idx[k]]];
    }
    NothingGathered(dict, idx[|idx|..]);
    assert done + [] == done;
    r := Pass;
  }

  lemma NothingGathered(dict: Rows, idx: seq<nat>)
    requires idx == []
    ensures Gathered(dict, idx) == Ok([])
  {
  }

  method ReadRowPage(page: Page, st: RowState) returns (r: Result<RowState>)
    ensures r == RowStep(page, st)
  {
    hide PlainValues, PageIndices, Gathered;
    match page
    case Dictionary(body) =>
      var dict :- DecodePlainByteArray(body);
      return Ok(st.(dict := dict));
    case Plain(values, _) =>
      var rows :- DecodePlainByteArray(values);
      return Ok(st.(out := st.out + rows));
    case Indexed(values, n) =>
      if |st.dict| == 0 {
        return Err(InvalidInput);
      }
      var idx :- DecodeIndices(values, n);
      var status, out := GatherRows(st.dict, idx, st.out);
      if status.Fail? {
        return Err(status.error);
      }
      return Ok(st.(out := out));
    case OtherEncoding =>
      return Err(InvalidInput);
    case Index =>
      return Ok(st);
  }

  /** The page loop of `read_column_byte_array_async_into`. */
  method ReadRows(pages: seq<Page>, total: nat) returns (r: Result<Rows>)
    ensures r == RunRows(pages, RowState([], []), total)
  {
    hide RowStep;
    var st := RowState([], []);
    assert pages[0..] == pages;
    for i := 0 to |pages|
      invariant RunRows(pages[i..], st, total) == RunRows(pages, RowState([], []), total)
    {
      assert pages[i..][0] == pages[i] && pages[i..][1..] == pages[i + 1..];
      st :- ReadRowPage(pages[i], st);
      if |st.out| >= total {
        return Ok(st.out);
      }
    }
    return Ok(st.out);
  }

  // ----- the offsets reader -----

  /** An offsets vector always holds its first entry. */
  type Offs = s: seq<nat> | s != [] witness [0]

  datatype FlatState = FlatState(dictBytes: seq<Byte>, dictOffsets: Offs, bytes: seq<Byte>, offsets: Offs)

  /** `acc += len as u32; offsets.push(acc)`. */
  function Push(offsets: Offs, len: nat): (r: Offs)
    ensures |r| == |offsets| + 1
  {
    offsets + [(offsets[|offsets| - 1] + len) % U32_MODULUS]
  }

  /** The inline PLAIN walk, over what is left of the page, for at most `cap` values. */
  function FlatPlain(body: seq<Byte>, cap: nat, bytes: seq<Byte>, offsets: Offs): Result<(seq<Byte>, Offs)>
    decreases |body|
  {
    if body == [] || cap == 0 then Ok((bytes, offsets))
    else if |body| < 4 then Err(InvalidInput)
    else
      var len := LeNat(body[..4]);
      if len > |body| - 4 then Err(InvalidInput)
      else FlatPlain(body[4 + len..], cap - 1, bytes + body[4..4 + len], Push(offsets, len))
  }

  /** Indices looked up in the flat dictionary. Its offsets are 32-bit sums; where one wrapped, the
      slice bounds are out of order and the source panics, an error here. */
  function FlatGather(dictBytes: seq<Byte>, dictOffsets: Offs, idx: seq<nat>, bytes: seq<Byte>, offsets: Offs):
    Result<(seq<Byte>, Offs)>
    decreases |idx|
  {
    if idx == [] then Ok((bytes, offsets))
    else if idx[0] >= |dictOffsets| - 1 then Err(InvalidInput)
    else
      var lo, hi := dictOffsets[idx[0]], dictOffsets[idx[0] + 1];
      if !(lo <= hi <= |dictBytes|) then Err(InvalidInput)
      else FlatGather(dictBytes, dictOffsets, idx[1..], bytes + dictBytes[lo..hi], Push(offsets, hi - lo))
  }

  /** The flat form of a dictionary's values. */
  function FlatAll(rows: Rows, bytes: seq<Byte>, offsets: Offs): (seq<Byte>, Offs)
    decreases |rows|
  {
    if rows == [] then (bytes, offsets) else FlatAll(rows[1..], bytes + rows[0], Push(offsets, |rows[0]|))
  }

  /** What a row list looks like in flat form. */
  function Offsets(rows: Rows): (r: seq<nat>)
    ensures |r| == |rows| + 1
    decreases |rows|
  {
    if rows == [] then [0]
    else
      var n := |rows| - 1;
      Offsets(rows[..n]) + [Offsets(rows[..n])[n] + |rows[n]|]
  }

  lemma {:induction false} OffsetsEnds(rows: Rows)
    ensures Offsets(rows)[0] == 0 && Offsets(rows)[|rows|] == |Concat(rows)|
    decreases |rows|
  {
    hide Concat;
    if rows == [] {
      ConcatNothing();
    } else {
      var n := |rows| - 1;
      OffsetsEnds(rows[..n]);
      assert rows == rows[..n] + [rows[n]];
      ConcatSnoc(rows[..n], rows[n]);
    }
  }

  /** Row `r` lies between two offsets. */
  predicate RowAt(bytes: seq<Byte>, offsets: seq<nat>, r: nat, row: seq<Byte>) {
    && r + 1 < |offsets|
    && offsets[r] <= offsets[r + 1] <= |bytes|
    && bytes[offsets[r]..offsets[r + 1]] == row
  }

  /** Offsets start at 0, never decrease, end at the number of bytes, and delimit the rows. */
  lemma OffsetsDelimit(rows: Rows)
    ensures |Offsets(rows)| == |rows| + 1
    ensures Offsets(rows)[0] == 0 && Offsets(rows)[|rows|] == |Concat(rows)|
    ensures forall r :: 0 <= r < |rows| ==> RowAt(Concat(rows), Offsets(rows), r, rows[r])
  {
    hide Concat, Offsets, RowAt;
    OffsetsEnds(rows);
    forall r | 0 <= r < |rows|
      ensures RowAt(Concat(rows), Offsets(rows), r, rows[r])
    {
      RowDelimited(rows, r);
    }
  }

  lemma {:induction false} RowDelimited(rows: Rows, r: nat)
    requires r < |rows|
    ensures RowAt(Concat(rows), Offsets(rows), r, rows[r])
    decreases |rows|
  {
    hide Concat;
    var n := |rows| - 1;
    var init := rows[..n];
    assert rows == init + [rows[n]];
    ConcatSnoc(init, rows[n]);
    OffsetsEnds(init);
    if r < n {
      RowDelimited(init, r);
      RowStays(Concat(init), Offsets(init), r, init[r], rows[n], Offsets(rows));
    }
  }

  lemma RowStays(bytes: seq<Byte>, offsets: seq<nat>, r: nat, row: seq<Byte>, more: seq<Byte>, longer: seq<nat>)
    requires RowAt(bytes, offsets, r, row) && offsets <= longer
    ensures RowAt(bytes + more, longer, r, row)
  {
    assert (bytes + more)[offsets[r]..offsets[r + 1]] == bytes[offsets[r]..offsets[r + 1]];
  }

  lemma ConcatNothing()
    ensures Concat([]) == []
  {
  }

  lemma {:induction false} ConcatSnoc(rows: Rows, x: seq<Byte>)
    ensures Concat(rows + [x]) == Concat(rows) + x
    decreases |rows|
  {
    if rows == [] {
      assert rows + [x] == [x] && [x][1..] == [] && x + Concat([]) == x;
      assert Concat([x]) == x;
    } else {
      assert (rows + [x])[1..] == rows[1..] + [x];
      ConcatSnoc(rows[1..], x);
      assert rows[0] + (Concat(rows[1..]) + x) == rows[0] + Concat(rows[1..]) + x;
    }
  }

  // ----- the flat reader, page by page -----

  function FlatStep(page: Page, st: FlatState): Result<FlatState> {
    match page
    case Dictionary(body) =>
      var rows :- PlainValues(body);
      var (bytes, offsets) := FlatAll(rows, [], [0]);
      Ok(st.(dictBytes := bytes, dictOffsets := offsets))
    case Plain(values, n) =>
      var (bytes, offsets) :- FlatPlain(values, n, st.bytes, st.offsets);
      Ok(st.(bytes := bytes, offsets := offsets))
    case Indexed(values, n) =>
      if |st.dictOffsets| < 2 then Err(InvalidInput)
      else
        var idx :- PageIndices(values, n);
        var (bytes, offsets) :- FlatGather(st.dictBytes, st.dictOffsets, idx, st.bytes, st.offsets);
        Ok(st.(bytes := bytes, offsets := offsets))
    case OtherEncoding => Err(InvalidInput)
    case Index => Ok(st)
  }

  function RunFlat(pages: seq<Page>, st: FlatState, total: nat): Result<(seq<Byte>, Offs)> {
    if pages == [] then Ok((st.bytes, st.offsets))
    else
      var next :- FlatStep(pages[0], st);
      if |next.offsets| > total then Ok((next.bytes, next.offsets)) else RunFlat(pages[1..], next, total)
  }

  /** The inline PLAIN walk. */
  method WalkPlain(body: seq<Byte>, cap: nat, bytes0: seq<Byte>, offsets0: Offs)
    returns (r: Outcome, bytes: seq<Byte>, offsets: Offs)
    ensures r == Status(FlatPlain(body, cap, bytes0, offsets0))
    ensures r.Pass? ==> (bytes, offsets) == FlatPlain(body, cap, bytes0, offsets0).value
  {
    hide LeNat;
    bytes, offsets := bytes0, offsets0;
    var i, emitted := 0, 0;
    var acc := offsets[|offsets| - 1];
    assert body[0..] == body;
    while i < |body| && emitted < cap
      invariant i <= |body| && emitted <= cap && acc == offsets[|offsets| - 1]
      invariant FlatPlain(body, cap, bytes0, offsets0) == FlatPlain(body[i..], cap - emitted, bytes, offsets)
      decreases |body| - i
    {
      ghost var rest := body[i..];
      if i + 4 > |body| {
        return Fail(InvalidInput), bytes, offsets;
      }
      assert body[i..i + 4] == rest[..4];
      var len := LeNat(body[i..i + 4]);
      i := i + 4;
      if i + len > |body| {
        return Fail(InvalidInput), bytes, offsets;
      }
      RestSlice(body, i - 4, len);
      bytes := bytes + body[i..i + len];
      i := i + len;
      acc := (acc + len) % U32_MODULUS;
      offsets := offsets + [acc];
      emitted := emitted + 1;
    }
    r := Pass;
  }

  lemma RestSlice(body: seq<Byte>, at: nat, len: nat)
    requires at + 4 + len <= |body|
    ensures body[at..][4..4 + len] == body[at + 4..at + 4 + len]
    ensures body[at..][4 + len..] == body[at + 4 + len..]
  {
    var a, b := body[at..][4..4 + len], body[at + 4..at + 4 + len];
    forall k | 0 <= k < len
      ensures a[k] == b[k]
    {
      assert a[k] == body[at..][4 + k] == body[at + (4 + k)];
    }
  }

  method GatherFlat(dictBytes: seq<Byte>, dictOffsets: Offs, idx: seq<nat>, bytes0: seq<Byte>, offsets0: Offs)
    returns (r: Outcome, bytes: seq<Byte>, offsets: Offs)
    ensures r == Status(FlatGather(dictBytes, dictOffsets, idx, bytes0, offsets0))
    ensures r.Pass? ==> (bytes, offsets) == FlatGather(dictBytes, dictOffsets, idx, bytes0, offsets0).value
  {
    bytes, offsets := bytes0, offsets0;
    var acc := offsets[|offsets| - 1];
    assert idx[0..] == idx;
    for k := 0 to |idx|
      invariant acc == offsets[|offsets| - 1]
      invariant FlatGather(dictBytes, dictOffsets, idx, bytes0, offsets0)
             == FlatGather(dictBytes, dictOffsets, idx[k..], bytes, offsets)
    {
      assert idx[k..][0] == idx[k] && idx[k..][1..] == idx[k + 1..];
      var i := idx[k];
      if i >= |dictOffsets| - 1 {
        return Fail(InvalidInput), bytes, offsets;
      }
      var lo, hi := dictOffsets[i], dictOffsets[i + 1];
      if !(lo <= hi <= |dictBytes|) {
        return Fail(InvalidInput), bytes, offsets;
      }
      bytes := bytes + dictBytes[lo..hi];
      acc := (acc + (hi - lo)) % U32_MODULUS;
      offsets := offsets + [acc];
    }
    r := Pass;
  }

  method FlattenDictionary(rows: Rows) returns (bytes: seq<Byte>, offsets: Offs)
    ensures (bytes, offsets) == FlatAll(rows, [], [0])
  {
    bytes, offsets := [], [0];
    var acc := 0;
    assert rows[0..] == rows;
    for k := 0 to |rows|
      invariant acc == offsets[|offsets| - 1]
      invariant FlatAll(rows, [], [0]) == FlatAll(rows[k..], bytes, offsets)
    {
      assert rows[k..][0] == rows[k] && rows[k..][1..] == rows[k + 1..];
      bytes := bytes + rows[k];
      acc := (acc + |rows[k]|) % U32_MODULUS;
      offsets := offsets + [acc];
    }
  }

  method ReadFlatPage(page: Page, st: FlatState) returns (r: Result<FlatState>)
    ensures r == FlatStep(page, st)
  {
    hide PlainValues, PageIndices, FlatPlain, FlatGather, FlatAll;
    match page
    case Dictionary(body) =>
      var rows :- DecodePlainByteArray(body);
      var bytes, offsets := FlattenDictionary(rows);
      return Ok(st.(dictBytes := bytes, dictOffsets := offsets));
    case Plain(values, n) =>
      var status, bytes, offsets := WalkPlain(values, n, st.bytes, st.offsets);
      if status.Fail? {
        return Err(status.error);
      }
      return Ok(st.(bytes := bytes, offsets := offsets));
    case Indexed(values, n) =>
      if |st.dictOffsets| < 2 {
        return Err(InvalidInput);
      }
      var idx :- DecodeIndices(values, n);
      var status, bytes, offsets := GatherFlat(st.dictBytes, st.dictOffsets, idx, st.bytes, st.offsets);
      if status.Fail? {
        return Err(status.error);
      }
      return Ok(st.(bytes := bytes, offsets := offsets));
    case OtherEncoding =>
      return Err(InvalidInput);
    case Index =>
      return Ok(st);
  }

  /** The page loop of `read_column_byte_array_offsets_async_into`. */
  method ReadOffsets(pages: seq<Page>, total: nat) returns (r: Result<(seq<Byte>, Offs)>)
    ensures r == RunFlat(pages, FlatState([], [0], [], [0]), total)
  {
    hide FlatStep;
    var st := FlatState([], [0], [], [0]);
    assert pages[0..] == pages;
    for i := 0 to |pages|
      invariant RunFlat(pages[i..], st, total) == RunFlat(pages, FlatState([], [0], [], [0]), total)
    {
      assert pages[i..][0] == pages[i] && pages[i..][1..] == pages[i + 1..];
      st :- ReadFlatPage(pages[i], st);
      if |st.offsets| > total {
        return Ok((st.bytes, st.offsets));
      }
    }
    return Ok((st.bytes, st.offsets));
  }

  // ----- what the offsets reader computes -----

  /** The offsets of a row list as 32-bit running sums. */
  function WrappedOffsets(rows: Rows): (r: Offs)
    ensures |r| == |rows| + 1
    decreases |rows|
  {
    if rows == [] then [0] else Push(WrappedOffsets(rows[..|rows| - 1]), |rows[|rows| - 1]|)
  }

  /** Its last entry is below 2^32, and no sum wraps while the bytes fit. */
  lemma {:induction false} WrappedWhenFits(rows: Rows)
    ensures WrappedOffsets(rows)[|rows|] < U32_MODULUS
    ensures |Concat(rows)| < U32_MODULUS ==> WrappedOffsets(rows) == Offsets(rows)
    decreases |rows|
  {
    hide Concat;
    if rows != [] {
      var init, last := rows[..|rows| - 1], rows[|rows| - 1];
      assert rows == init + [last];
      ConcatSnoc(init, last);
      WrappedWhenFits(init);
      OffsetsEnds(init);
    }
  }

  /** `bytes` and `offsets` are the flat form of `rows`. */
  predicate Represents(bytes: seq<Byte>, offsets: seq<nat>, rows: Rows) {
    && |offsets| == |rows| + 1
    && offsets[0] == 0 && offsets[|rows|] == |bytes|
    && forall r :: 0 <= r < |rows| ==> RowAt(bytes, offsets, r, rows[r])
  }

  /** 32-bit sums delimit the rows if and only if the bytes number less than 2^32. */
  lemma WrappedRepresents(rows: Rows)
    ensures Represents(Concat(rows), WrappedOffsets(rows), rows) <==> |Concat(rows)| < U32_MODULUS
  {
    hide Concat, Offsets, WrappedOffsets, RowAt;
    WrappedWhenFits(rows);
    if |Concat(rows)| < U32_MODULUS {
      OffsetsDelimit(rows);
    }
  }

  /** The whole values at the start of a PLAIN page. */
  function Complete(body: seq<Byte>): Rows
    decreases |body|
  {
    if |body| < 4 || LeNat(body[..4]) > |body| - 4 then []
    else [body[4..4 + LeNat(body[..4])]] + Complete(body[4 + LeNat(body[..4])..])
  }

  /** What a reader that takes at most `n` values gets: bytes behind the `n`-th are not looked at. */
  function PlainUpTo(body: seq<Byte>, n: nat): Result<Rows> {
    if n <= |Complete(body)| then Ok(Complete(body)[..n])
    else if PlainValues(body).Ok? then PlainValues(body)
    else Err(InvalidInput)
  }

  lemma {:induction false} CompleteIsPlain(body: seq<Byte>)
    requires PlainValues(body).Ok?
    ensures Complete(body) == PlainValues(body).value
    decreases |body|
  {
    hide LeNat;
    if body != [] {
      CompleteIsPlain(body[4 + LeNat(body[..4])..]);
    }
  }

  /** On one PLAIN page the readers agree if and only if it holds no more values than it says; on a
      page the row reader refuses, the other succeeds exactly when enough values are whole. */
  lemma PlainPageExactly(body: seq<Byte>, n: nat)
    ensures PlainValues(body).Ok? ==> (PlainUpTo(body, n) == PlainValues(body) <==> |PlainValues(body).value| <= n)
    ensures PlainValues(body).Ok? ==> PlainUpTo(body, n) == Ok(PlainValues(body).value[..Min(n, |PlainValues(body).value|)])
    ensures PlainValues(body).Err? ==> (PlainUpTo(body, n).Ok? <==> n <= |Complete(body)|)
  {
    hide PlainValues, Complete;
    if PlainValues(body).Ok? {
      CompleteIsPlain(body);
      var v := PlainValues(body).value;
      assert v[..|v|] == v;
    }
  }

  /** The row reader with that PLAIN step. */
  function CappedStep(page: Page, st: RowState): Result<RowState> {
    match page
    case Plain(values, n) =>
      var rows :- PlainUpTo(values, n);
      Ok(st.(out := st.out + rows))
    case _ => RowStep(page, st)
  }

  function RunCapped(pages: seq<Page>, st: RowState, total: nat): Result<Rows> {
    if pages == [] then Ok(st.out)
    else
      var next :- CappedStep(pages[0], st);
      if |next.out| >= total then Ok(next.out) else RunCapped(pages[1..], next, total)
  }

  /** Page sizes are 32-bit numbers; what is read from a dictionary page fits one. */
  predicate PageFits(page: Page) {
    page.Dictionary? ==> |page.body| < U32_MODULUS
  }

  function FlatOf(st: RowState): FlatState {
    FlatState(Concat(st.dict), WrappedOffsets(st.dict), Concat(st.out), WrappedOffsets(st.out))
  }

  function FlatRows(rows: Result<Rows>): Result<(seq<Byte>, Offs)> {
    match rows
    case Ok(v) => Ok((Concat(v), WrappedOffsets(v)))
    case Err(e) => Err(e)
  }

  /** One more row. */
  lemma OneMoreRow(rows: Rows, more: Rows)
    requires more != []
    ensures Push(WrappedOffsets(rows), |more[0]|) == WrappedOffsets(rows + [more[0]])
    ensures Concat(rows) + more[0] == Concat(rows + [more[0]])
    ensures rows + [more[0]] + more[1..] == rows + more
  {
    hide Concat, Push;
    ConcatSnoc(rows, more[0]);
    assert (rows + [more[0]])[..|rows|] == rows;
  }

  lemma {:induction false} FlatAllIsFlat(rows: Rows, more: Rows)
    ensures FlatAll(more, Concat(rows), WrappedOffsets(rows)) == (Concat(rows + more), WrappedOffsets(rows + more))
    decreases |more|
  {
    hide Concat, WrappedOffsets, Push;
    if more == [] {
      assert rows + more == rows;
    } else {
      OneMoreRow(rows, more);
      FlatAllIsFlat(rows + [more[0]], more[1..]);
    }
  }

  /** One value at the start of a page with room for it. */
  lemma UpToHead(body: seq<Byte>, n: nat)
    requires |body| >= 4 && n > 0 && LeNat(body[..4]) <= |body| - 4
    ensures var len := LeNat(body[..4]);
            PlainUpTo(body, n) == Prepend([body[4..4 + len]], PlainUpTo(body[4 + len..], n - 1))
  {
    hide LeNat;
    var len := LeNat(body[..4]);
    var rest := Complete(body[4 + len..]);
    assert Complete(body) == [body[4..4 + len]] + rest;
    if n <= |Complete(body)| {
      assert Complete(body)[..n] == [body[4..4 + len]] + rest[..n - 1];
    }
  }

  /** Nothing left, nothing wanted, or no whole value. */
  lemma UpToEnd(body: seq<Byte>, n: nat)
    requires body == [] || n == 0 || |body| < 4 || LeNat(body[..4]) > |body| - 4
    ensures PlainUpTo(body, n) == if body == [] || n == 0 then Ok([]) else Err(InvalidInput)
  {
    hide LeNat;
    assert Complete(body)[..0] == [];
  }

  lemma {:induction false} FlatPlainIsFlat(body: seq<Byte>, cap: nat, rows: Rows)
    ensures FlatPlain(body, cap, Concat(rows), WrappedOffsets(rows))
         == FlatRows(Prepend(rows, PlainUpTo(body, cap)))
    decreases |body|
  {
    hide Concat, WrappedOffsets, Push, LeNat, PlainUpTo;
    if body == [] || cap == 0 || |body| < 4 || LeNat(body[..4]) > |body| - 4 {
      UpToEnd(body, cap);
      assert rows + [] == rows;
    } else {
      var len := LeNat(body[..4]);
      var more := [body[4..4 + len]];
      UpToHead(body, cap);
      OneMoreRow(rows, more);
      FlatPlainIsFlat(body[4 + len..], cap - 1, rows + more);
      PrependTwice(rows, more, PlainUpTo(body[4 + len..], cap - 1));
    }
  }

  lemma {:induction false} FlatGatherIsFlat(dict: Rows, idx: seq<nat>, rows: Rows)
    requires |Concat(dict)| < U32_MODULUS
    ensures FlatGather(Concat(dict), WrappedOffsets(dict), idx, Concat(rows), WrappedOffsets(rows))
         == FlatRows(Prepend(rows, Gathered(dict, idx)))
    decreases |idx|
  {
    hide Concat, WrappedOffsets, Push;
    if idx == [] {
      assert rows + [] == rows;
    } else if idx[0] < |dict| {
      var more := [dict[idx[0]]];
      WrappedWhenFits(dict);
      RowDelimited(dict, idx[0]);
      OneMoreRow(rows, more);
      FlatGatherIsFlat(dict, idx[1..], rows + more);
      PrependTwice(rows, more, Gathered(dict, idx[1..]));
    }
  }

  lemma {:induction false} PlainBytes(body: seq<Byte>)
    requires PlainValues(body).Ok?
    ensures |Concat(PlainValues(body).value)| <= |body|
    decreases |body|
  {
    hide LeNat;
    if body != [] {
      PlainBytes(body[4 + LeNat(body[..4])..]);
    }
  }

  /** One page: the flat step is the capped step, errors included. */
  lemma StepsAgree(page: Page, st: RowState)
    requires PageFits(page) && |Concat(st.dict)| < U32_MODULUS
    ensures var next := CappedStep(page, st);
            && FlatStep(page, FlatOf(st)) == (if next.Ok? then Ok(FlatOf(next.value)) else Err(next.error))
            && (next.Ok? ==> |Concat(next.value.dict)| < U32_MODULUS)
  {
    hide Concat, WrappedOffsets, PlainValues, PlainUpTo, Gathered, PageIndices, FlatPlain, FlatGather, FlatAll;
    match page
    case Dictionary(body) =>
      if PlainValues(body).Ok? {
        var rows := PlainValues(body).value;
        PlainBytes(body);
        ConcatNothing();
        WrappedNothing();
        FlatAllIsFlat([], rows);
        assert [] + rows == rows;
      }
    case Plain(values, n) =>
      FlatPlainIsFlat(values, n, st.out);
    case Indexed(values, n) =>
      if PageIndices(values, n).Ok? {
        FlatGatherIsFlat(st.dict, PageIndices(values, n).value, st.out);
      }
    case OtherEncoding =>
    case Index =>
  }

  lemma WrappedNothing()
    ensures WrappedOffsets([]) == [0]
  {
  }

  lemma {:induction false} RunsAgree(pages: seq<Page>, st: RowState, total: nat)
    requires (forall i :: 0 <= i < |pages| ==> PageFits(pages[i])) && |Concat(st.dict)| < U32_MODULUS
    ensures RunFlat(pages, FlatOf(st), total) == FlatRows(RunCapped(pages, st, total))
    decreases |pages|
  {
    hide CappedStep, FlatStep, PageFits, Concat, WrappedOffsets;
    if pages != [] {
      StepsAgree(pages[0], st);
      var next := CappedStep(pages[0], st);
      if next.Ok? && |next.value.out| < total {
        RunsAgree(pages[1..], next.value, total);
      }
    }
  }

  /** Exactly what the offsets reader returns on any pages: the flat form, in 32-bit sums, of the rows
      of the reader that takes from each PLAIN page no more values than it says; or that one's error. */
  lemma OffsetsReaderExactly(pages: seq<Page>, total: nat)
    requires forall i :: 0 <= i < |pages| ==> PageFits(pages[i])
    ensures RunFlat(pages, FlatState([], [0], [], [0]), total) == FlatRows(RunCapped(pages, RowState([], []), total))
  {
    hide RunFlat, RunCapped, PageFits, Concat, WrappedOffsets;
    ConcatNothing();
    WrappedNothing();
    RunsAgree(pages, RowState([], []), total);
  }

  // ----- both readers see the same rows -----

  /** A PLAIN page holds no more values than it says. */
  predicate NotOverfull(page: Page) {
    page.Plain? && PlainValues(page.values).Ok? ==> |PlainValues(page.values).value| <= page.numValues
  }

  /** So does every page the row reader gets to. */
  predicate NoneOverfull(pages: seq<Page>, st: RowState, total: nat) {
    pages == [] ||
    (&& NotOverfull(pages[0])
     && var next := RowStep(pages[0], st);
        next.Ok? && |next.value.out| < total ==> NoneOverfull(pages[1..], next.value, total))
  }

  /** Where a page holds no more than it says, and only there, one step of both readers is the same. */
  lemma StepsSameExactly(page: Page, st: RowState)
    requires RowStep(page, st).Ok?
    ensures CappedStep(page, st) == RowStep(page, st) <==> NotOverfull(page)
  {
    hide PlainValues, PlainUpTo, Gathered, PageIndices;
    if page.Plain? {
      PlainPageExactly(page.values, page.numValues);
      if PlainUpTo(page.values, page.numValues).Ok? {
        var some, all := PlainUpTo(page.values, page.numValues).value, PlainValues(page.values).value;
        assert (st.out + some)[|st.out|..] == some && (st.out + all)[|st.out|..] == all;
      }
    }
  }

  lemma {:induction false} CappedIsRows(pages: seq<Page>, st: RowState, total: nat)
    requires RunRows(pages, st, total).Ok? && NoneOverfull(pages, st, total)
    ensures RunCapped(pages, st, total) == RunRows(pages, st, total)
    decreases |pages|
  {
    hide RowStep, CappedStep, NotOverfull;
    if pages != [] {
      StepsSameExactly(pages[0], st);
      var next := RowStep(pages[0], st).value;
      if |next.out| < total {
        CappedIsRows(pages[1..], next, total);
      }
    }
  }

  /** No PLAIN page before the first page the row reader refuses is overfull. */
  predicate NoneOverfullBeforeRefusal(pages: seq<Page>, st: RowState) {
    pages == [] ||
    (RowStep(pages[0], st).Ok? ==>
       NotOverfull(pages[0]) && NoneOverfullBeforeRefusal(pages[1..], RowStep(pages[0], st).value))
  }

  /** A PLAIN page says it holds at least one value. */
  predicate SaysSome(page: Page) {
    page.Plain? ==> page.numValues > 0
  }

  lemma {:induction false} NoneOverfullAtTotal(pages: seq<Page>, st: RowState, total: nat)
    requires NoneOverfullBeforeRefusal(pages, st)
    ensures RunRows(pages, st, total).Ok? ==> NoneOverfull(pages, st, total)
    decreases |pages|
  {
    hide RowStep, NotOverfull;
    if pages != [] && RowStep(pages[0], st).Ok? {
      NoneOverfullAtTotal(pages[1..], RowStep(pages[0], st).value, total);
    }
  }

  /** A row count at which an overfull page makes the readers differ: the rows before the page and those
      it says it holds, where both readers stop. */
  lemma {:induction false} OverfullSeparates(pages: seq<Page>, st: RowState) returns (total: nat)
    requires (forall i :: 0 <= i < |pages| ==> SaysSome(pages[i])) && !NoneOverfullBeforeRefusal(pages, st)
    ensures total > |st.out| && RunRows(pages, st, total).Ok?
    ensures RunCapped(pages, st, total) != RunRows(pages, st, total)
    decreases |pages|
  {
    hide RowStep, CappedStep, NotOverfull;
    var next := RowStep(pages[0], st).value;
    if NotOverfull(pages[0]) {
      total := OverfullSeparates(pages[1..], next);
      StepsSameExactly(pages[0], st);
      RowsOnlyGrow(pages[0], st);
    } else {
      OverfullStep(pages[0], st);
      total := |st.out| + pages[0].numValues;
      assert SaysSome(pages[0]);
    }
  }

  lemma RowsOnlyGrow(page: Page, st: RowState)
    requires RowStep(page, st).Ok?
    ensures |st.out| <= |RowStep(page, st).value.out|
  {
    hide PlainValues, Gathered, PageIndices;
  }

  lemma OverfullStep(page: Page, st: RowState)
    requires RowStep(page, st).Ok? && !NotOverfull(page)
    ensures page.Plain? && |RowStep(page, st).value.out| > |st.out| + page.numValues
    ensures CappedStep(page, st).Ok? && |CappedStep(page, st).value.out| == |st.out| + page.numValues
  {
    hide PlainValues, PlainUpTo;
    PlainPageExactly(page.values, page.numValues);
  }

  /** Over whole runs: with at least one value on every PLAIN page, the readers agree at every row count
      at which the row reader succeeds if and only if it meets no overfull page before one it refuses. */
  lemma ReadersAgreeExactly(pages: seq<Page>)
    requires forall i :: 0 <= i < |pages| ==> SaysSome(pages[i])
    ensures var st := RowState([], []);
            (forall total: nat :: RunRows(pages, st, total).Ok? ==> RunCapped(pages, st, total) == RunRows(pages, st, total))
            <==> NoneOverfullBeforeRefusal(pages, st)
  {
    hide RunRows, RunCapped, NoneOverfull, NoneOverfullBeforeRefusal, SaysSome;
    var st := RowState([], []);
    if NoneOverfullBeforeRefusal(pages, st) {
      forall total: nat | RunRows(pages, st, total).Ok?
        ensures RunCapped(pages, st, total) == RunRows(pages, st, total)
      {
        NoneOverfullAtTotal(pages, st, total);
        CappedIsRows(pages, st, total);
      }
    } else {
      var total := OverfullSeparates(pages, st);
    }
  }

  /** The offsets form represents the same rows: whenever the row reader succeeds and no PLAIN page on
      the way holds more values than it says, the offsets reader returns its rows, delimited by the
      offsets if and only if their bytes number less than 2^32. */
  lemma OffsetsRepresentRows(pages: seq<Page>, total: nat)
    requires forall i :: 0 <= i < |pages| ==> PageFits(pages[i])
    requires RunRows(pages, RowState([], []), total).Ok? && NoneOverfull(pages, RowState([], []), total)
    ensures var rows := RunRows(pages, RowState([], []), total).value;
            var flat := RunFlat(pages, FlatState([], [0], [], [0]), total);
            && flat.Ok?
            && flat.value.0 == Concat(rows)
            && (Represents(flat.value.0, flat.value.1, rows) <==> |Concat(rows)| < U32_MODULUS)
  {
    hide RunRows, RunFlat, RunCapped, NoneOverfull, PageFits, Concat, WrappedOffsets, Represents;
    OffsetsReaderExactly(pages, total);
    CappedIsRows(pages, RowState([], []), total);
    WrappedRepresents(RunRows(pages, RowState([], []), total).value);
  }

  /** A page of two empty values that says one: the row reader returns both, the offsets reader one. */
  lemma OverfullPageDiffers()
    ensures var pages := [Plain([0, 0, 0, 0, 0, 0, 0, 0], 1)];
            && RunRows(pages, RowState([], []), 2) == Ok([[], []])
            && RunFlat(pages, FlatState([], [0], [], [0]), 2) == Ok(([], [0, 0]))
  {
    hide PlainValues, FlatPlain, LeNat, Gathered, PageIndices, FlatGather, FlatAll;
    var body: seq<Byte> := [0, 0, 0, 0, 0, 0, 0, 0];
    var page := Plain(body, 1);
    EmptyValue(body);
    EmptyValue(body[4..]);
    var row: seq<Byte> := [];
    NoPlain(body[4..][4..]);
    assert [row] + [] == [row] && [row] + [row] == [row, row] && [] + [row, row] == [row, row];
    assert RowStep(page, RowState([], [])) == Ok(RowState([], [row, row]));
    assert FlatStep(page, FlatState([], [0], [], [0])) == Ok(FlatState([], [0], [], [0, 0]));
  }

  /** At a single row count an overfull page can go unnoticed: the next page happens to hold the value
      that was passed over. */
  lemma OverfullPageHidden()
    ensures var pages := [Plain([0, 0, 0, 0, 0, 0, 0, 0], 1), Plain([0, 0, 0, 0], 1)];
            && !NotOverfull(pages[0])
            && RunRows(pages, RowState([], []), 2) == Ok([[], []])
            && RunCapped(pages, RowState([], []), 2) == Ok([[], []])
  {
    hide PlainValues, PlainUpTo, LeNat, Gathered, PageIndices;
    var two: seq<Byte>, one: seq<Byte> := [0, 0, 0, 0, 0, 0, 0, 0], [0, 0, 0, 0];
    var row: seq<Byte> := [];
    EmptyValue(two);
    EmptyValue(one);
    assert two[4..] == one;
    NoPlain(one[4..]);
    assert [row] + [] == [row] && [row] + [row] == [row, row] && [] + [row, row] == [row, row] && [] + [row] == [row];
    PlainPageExactly(two, 1);
    PlainPageExactly(one, 1);
    assert [row, row][..1] == [row];
    var pages := [Plain(two, 1), Plain(one, 1)];
    assert pages[1..] == [Plain(one, 1)];
    var first := RowState([], [row]);
    assert RowStep(pages[0], RowState([], [])) == Ok(RowState([], [row, row]));
    assert CappedStep(pages[0], RowState([], [])) == Ok(first);
    assert CappedStep(pages[1], first) == Ok(RowState([], [row, row]));
  }

  /** A stray byte behind the one value a page says it holds: only the offsets reader succeeds. */
  lemma TrailingByteDiffers()
    ensures var pages := [Plain([0, 0, 0, 0, 9], 1)];
            && RunRows(pages, RowState([], []), 1) == Err(UnexpectedEof(4, 1))
            && RunFlat(pages, FlatState([], [0], [], [0]), 1) == Ok(([], [0, 0]))
  {
    hide PlainValues, FlatPlain, LeNat, Gathered, PageIndices, FlatGather, FlatAll;
    var body: seq<Byte> := [0, 0, 0, 0, 9];
    var page := Plain(body, 1);
    EmptyValue(body);
    ShortPlain(body[4..]);
    assert RowStep(page, RowState([], [])) == Err(UnexpectedEof(4, 1));
    assert FlatStep(page, FlatState([], [0], [], [0])) == Ok(FlatState([], [0], [], [0, 0]));
  }

  lemma ShortPlain(body: seq<Byte>)
    requires 0 < |body| < 4
    ensures PlainValues(body) == Err(UnexpectedEof(4, |body|))
  {
  }

  /** A page that starts with an empty value. */
  lemma EmptyValue(body: seq<Byte>)
    requires |body| >= 4 && body[..4] == [0, 0, 0, 0]
    ensures PlainValues(body) == Prepend([[]], PlainValues(body[4..]))
    ensures FlatPlain(body, 1, [], [0]) == Ok(([], [0, 0]))
  {
    hide LeNat, PlainValues, FlatPlain;
    FourZeros(body[..4]);
    assert body[4..4 + 0] == [] && body[4 + 0..] == body[4..];
    PrependNothing(PlainValues(body));
    var row: seq<Byte> := [];
    WholeStep(body, [], PlainValues(body), 0, row, body[4..]);
    assert [] + [row] == [row];
    FlatPlainHead(body, 1, [], [0]);
    assert Push([0], 0) == [0, 0];
    NoRoom(body[4..], [], [0, 0]);
  }

  lemma FlatPlainHead(body: seq<Byte>, cap: nat, bytes: seq<Byte>, offsets: Offs)
    requires |body| >= 4 && cap > 0 && LeNat(body[..4]) == 0
    ensures FlatPlain(body, cap, bytes, offsets) == FlatPlain(body[4..], cap - 1, bytes, Push(offsets, 0))
  {
    hide LeNat, Push;
    var len: nat := LeNat(body[..4]);
    assert bytes + body[4..4 + len] == bytes && body[4 + len..] == body[4..];
  }

  lemma NoRoom(body: seq<Byte>, bytes: seq<Byte>, offsets: Offs)
    ensures FlatPlain(body, 0, bytes, offsets) == Ok((bytes, offsets))
  {
  }

  lemma FourZeros(p: seq<Byte>)
    requires p == [0, 0, 0, 0]
    ensures LeNat(p) == 0
  {
    assert LeNat(p[1..][1..][1..]) == 0;
    assert LeNat(p[1..][1..]) == 0;
    assert LeNat(p[1..]) == 0;
  }
}
