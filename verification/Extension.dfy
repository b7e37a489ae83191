/** The extension attached to a data file: its JSON form and the lenient reader, and what reading the
    printed form gives back. */
module Extension {
  import opened Bits
  import opened JsonText

  type Int64 = v: int | -0x8000_0000_0000_0000 <= v < 0x8000_0000_0000_0000
  type Int32 = v: int | -0x8000_0000 <= v < 0x8000_0000

  datatype SummaryKey = I64(wide: Int64) | I32(narrow: Int32) | Bytes(blob: seq<Byte>)

  datatype IndexSummary = IndexSummary(name: Text, min: Option<SummaryKey>, max: Option<SummaryKey>, bloom: Option<seq<Byte>>)

  datatype DataFileExtension = DataFileExtension(path: Text, summaries: seq<IndexSummary>)

  // ----- printing -----

  function KeyJson(k: SummaryKey): Text {
    match k
    case I64(v) => "{\"type\":\"i64\",\"value\":" + Decimal(v) + "}"
    case I32(v) => "{\"type\":\"i32\",\"value\":" + Decimal(v) + "}"
    case Bytes(b) => "{\"type\":\"bytes\",\"value_hex\":\"" + Hex(b) + "\"}"
  }

  function OptionalKeyJson(prefix: Text, k: Option<SummaryKey>): Text {
    if k.Some? then prefix + KeyJson(k.value) else ""
  }

  function OptionalBloomJson(b: Option<seq<Byte>>): Text {
    if b.Some? then ",\"dataset_bloom_hex\":\"" + Hex(b.value) + "\"" else ""
  }

  function SummaryJson(s: IndexSummary): Text {
    "{\"name\":" + JsonString(s.name) + OptionalKeyJson(",\"min_key\":", s.min)
    + OptionalKeyJson(",\"max_key\":", s.max) + OptionalBloomJson(s.bloom) + "}"
  }

  function SummariesJson(list: seq<IndexSummary>): Text {
    if list == [] then ""
    else if |list| == 1 then SummaryJson(list[0])
    else SummaryJson(list[0]) + "," + SummariesJson(list[1..])
  }

  function ToJson(e: DataFileExtension): Text {
    "{\"version\":\"" + "v1" + "\",\"sidecar_relative_path\":" + JsonString(e.path) + ",\"summaries\":["
    + SummariesJson(e.summaries) + "]}"
  }

  // ----- reading a bound -----

  datatype KeyFields = KeyFields(typ: Option<Text>, number: Option<Int64>, blob: Option<seq<Byte>>)

  function KeyField(key: Text, st: KeyFields, s: Text): (r: Parsed<(KeyFields, Text)>)
    ensures !r.UnsupportedVersion?
    ensures r.Parsed? ==> |r.value.1| < |s|
  {
    if key == "type" then
      var (v, rest) :- StringAt(s);
      Parsed((st.(typ := Some(v)), rest))
    else if key == "value" then
      var (v, rest) :- IntegerAt(s);
      Parsed((st.(number := Some(v)), rest))
    else if key == "value_hex" then
      var (hex, rest) :- StringAt(s);
      var b :- ParseHex(hex);
      Parsed((st.(blob := Some(b)), rest))
    else
      var rest :- SkipValue(s);
      Parsed((st, rest))
  }

  /** A member's name and colon, or the closing brace. */
  function NameAt(s: Text): (r: Parsed<(Option<Text>, Text)>)
    ensures !r.UnsupportedVersion?
    ensures r.Parsed? ==> |r.value.1| < |s|
  {
    var (closed, t) := TryClose(s, '}');
    if closed then Parsed((None, t))
    else
      var (key, a) :- StringAt(t);
      var b :- Expect(a, ':');
      Parsed((Some(key), b))
  }

  function KeyMembers(st: KeyFields, s: Text): (r: Parsed<(KeyFields, Text)>)
    ensures !r.UnsupportedVersion?
    ensures r.Parsed? ==> |r.value.1| < |s|
    decreases |s|
  {
    var (name, a) :- NameAt(s);
    if name.None? then Parsed((st, a))
    else
      var (next, b) :- KeyField(name.value, st, a);
      KeyMembers(next, AfterComma(b))
  }

  function FinishKey(st: KeyFields): (r: Parsed<SummaryKey>)
    ensures !r.UnsupportedVersion?
  {
    if st.typ.None? then Malformed
    else if st.typ.value == "i64" then
      if st.number.None? then Malformed else Parsed(I64(st.number.value))
    else if st.typ.value == "i32" then
      if st.number.None? || !(-0x8000_0000 <= st.number.value < 0x8000_0000) then Malformed else Parsed(I32(st.number.value))
    else if st.typ.value == "bytes" then
      if st.blob.None? then Malformed else Parsed(Bytes(st.blob.value))
    else Malformed
  }

  /** `parse_summary_key`. */
  function KeyAt(s: Text): (r: Parsed<(SummaryKey, Text)>)
    ensures !r.UnsupportedVersion?
    ensures r.Parsed? ==> |r.value.1| < |s|
  {
    var a :- Expect(s, '{');
    var (st, rest) :- KeyMembers(KeyFields(None, None, None), a);
    var k :- FinishKey(st);
    Parsed((k, rest))
  }

  // ----- reading a summary -----

  datatype SummaryFields =
    SummaryFields(name: Option<Text>, min: Option<SummaryKey>, max: Option<SummaryKey>, bloom: Option<seq<Byte>>)

  function SummaryField(key: Text, st: SummaryFields, s: Text): (r: Parsed<(SummaryFields, Text)>)
    ensures !r.UnsupportedVersion?
    ensures r.Parsed? ==> |r.value.1| < |s|
  {
    if key == "name" then
      var (v, rest) :- StringAt(s);
      Parsed((st.(name := Some(v)), rest))
    else if key == "min_key" then
      var (k, rest) :- KeyAt(s);
      Parsed((st.(min := Some(k)), rest))
    else if key == "max_key" then
      var (k, rest) :- KeyAt(s);
      Parsed((st.(max := Some(k)), rest))
    else if key == "dataset_bloom_hex" then
      var (hex, rest) :- StringAt(s);
      var b :- ParseHex(hex);
      Parsed((st.(bloom := Some(b)), rest))
    else
      var rest :- SkipValue(s);
      Parsed((st, rest))
  }

  function SummaryMembers(st: SummaryFields, s: Text): (r: Parsed<(SummaryFields, Text)>)
    ensures !r.UnsupportedVersion?
    ensures r.Parsed? ==> |r.value.1| < |s|
    decreases |s|
  {
    var (name, a) :- NameAt(s);
    if name.None? then Parsed((st, a))
    else
      var (next, b) :- SummaryField(name.value, st, a);
      SummaryMembers(next, AfterComma(b))
  }

  /** `parse_one_summary`. */
  function SummaryAt(s: Text): (r: Parsed<(IndexSummary, Text)>)
    ensures !r.UnsupportedVersion?
    ensures r.Parsed? ==> |r.value.1| < |s|
  {
    var a :- Expect(s, '{');
    var (st, rest) :- SummaryMembers(SummaryFields(None, None, None, None), a);
    if st.name.None? then Malformed
    else Parsed((IndexSummary(st.name.value, st.min, st.max, st.bloom), rest))
  }

  function Elements(out: seq<IndexSummary>, s: Text): (r: Parsed<(seq<IndexSummary>, Text)>)
    ensures !r.UnsupportedVersion?
    ensures r.Parsed? ==> |r.value.1| < |s|
    decreases |s|
  {
    var (closed, t) := TryClose(s, ']');
    if closed then Parsed((out, t))
    else
      var (one, rest) :- SummaryAt(t);
      Elements(out + [one], AfterComma(rest))
  }

  /** `parse_summaries`. */
  function SummariesAt(s: Text): (r: Parsed<(seq<IndexSummary>, Text)>)
    ensures !r.UnsupportedVersion?
    ensures r.Parsed? ==> |r.value.1| < |s|
  {
    var a :- Expect(s, '[');
    Elements([], a)
  }

  // ----- reading the extension -----

  datatype TopFields = TopFields(version: Option<Text>, path: Option<Text>, summaries: Option<seq<IndexSummary>>)

  function TopField(key: Text, st: TopFields, s: Text): (r: Parsed<(TopFields, Text)>)
    ensures !r.UnsupportedVersion?
    ensures r.Parsed? ==> |r.value.1| < |s|
  {
    if key == "version" then
      var (v, rest) :- StringAt(s);
      Parsed((st.(version := Some(v)), rest))
    else if key == "sidecar_relative_path" then
      var (v, rest) :- StringAt(s);
      Parsed((st.(path := Some(v)), rest))
    else if key == "summaries" then
      var (list, rest) :- SummariesAt(s);
      Parsed((st.(summaries := Some(list)), rest))
    else
      var rest :- SkipValue(s);
      Parsed((st, rest))
  }

  function TopMembers(st: TopFields, s: Text): (r: Parsed<(TopFields, Text)>)
    ensures !r.UnsupportedVersion?
    ensures r.Parsed? ==> |r.value.1| < |s|
    decreases |s|
  {
    var (name, a) :- NameAt(s);
    if name.None? then Parsed((st, a))
    else
      var (next, b) :- TopField(name.value, st, a);
      TopMembers(next, AfterComma(b))
  }

  function FinishTop(st: TopFields): Parsed<DataFileExtension> {
    if st.version.None? then Malformed
    else if st.version.value != "v1" then UnsupportedVersion(st.version.value)
    else if st.path.None? then Malformed
    else Parsed(DataFileExtension(st.path.value, if st.summaries.None? then [] else st.summaries.value))
  }

  /** `from_json`: whatever follows the closing brace is not looked at. */
  function FromJson(s: Text): Parsed<DataFileExtension> {
    var a :- Expect(s, '{');
    var (st, _) :- TopMembers(TopFields(None, None, None), a);
    FinishTop(st)
  }

  // ----- reading what was printed -----

  /** A punctuation character is not skipped as white space. */
  lemma Punctuation(c: char, rest: Text)
    requires !IsSpace(c)
    ensures SkipSpace([c] + rest) == [c] + rest
    ensures Expect([c] + rest, c) == Parsed(rest)
    ensures forall d :: TryClose([c] + rest, d) == if c == d then (true, rest) else (false, [c] + rest)
    ensures AfterComma([c] + rest) == if c == ',' then rest else [c] + rest
  {
    assert ([c] + rest)[1..] == rest;
  }

  /** A printed member name. */
  lemma NamePrinted(name: Text, rest: Text)
    requires Plain(name)
    ensures NameAt("\"" + name + "\":" + rest) == Parsed((Some(name), rest))
  {
    hide StringAt, Expect, TryClose, Plain;
    var s := "\"" + name + "\":" + rest;
    assert s == ['"'] + (name + "\":" + rest);
    Punctuation('"', name + "\":" + rest);
    assert s == "\"" + name + "\"" + (":" + rest);
    PlainRoundTrip(name, ":" + rest);
    Punctuation(':', rest);
  }

  /** A closing brace ends an object. */
  lemma ClosePrinted(rest: Text)
    ensures NameAt("}" + rest) == Parsed((None, rest))
  {
    hide Expect, TryClose;
    Punctuation('}', rest);
  }

  lemma KeyNames()
    ensures Plain("type") && Plain("value") && Plain("value_hex") && Plain("i64") && Plain("i32") && Plain("bytes")
  {
  }

  /** One printed member of a bound. */
  lemma KeyMember(name: Text, st: KeyFields, next: KeyFields, value: Text, rest: Text)
    requires Plain(name) && KeyField(name, st, value + rest) == Parsed((next, rest))
    ensures KeyMembers(st, "\"" + name + "\":" + value + rest) == KeyMembers(next, AfterComma(rest))
  {
    hide NameAt, KeyField, AfterComma, Plain;
    NamePrinted(name, value + rest);
    assert "\"" + name + "\":" + value + rest == "\"" + name + "\":" + (value + rest);
  }

  lemma KeyTexts()
    ensures "{\"type\":\"i64\",\"value\":" == "{" + ("\"" + "type" + "\":" + ("\"" + "i64" + "\"") + ("," + ("\"" + "value" + "\":")))
    ensures "{\"type\":\"i32\",\"value\":" == "{" + ("\"" + "type" + "\":" + ("\"" + "i32" + "\"") + ("," + ("\"" + "value" + "\":")))
    ensures "{\"type\":\"bytes\",\"value_hex\":\""
         == "{" + ("\"" + "type" + "\":" + ("\"" + "bytes" + "\"") + ("," + ("\"" + "value_hex" + "\":"))) + "\""
  {
    I64Text();
    I32Text();
    BytesText();
  }

  lemma I64Text()
    ensures "{\"type\":\"i64\",\"value\":" == "{" + ("\"" + "type" + "\":" + ("\"" + "i64" + "\"") + ("," + ("\"" + "value" + "\":")))
  {
  }

  lemma I32Text()
    ensures "{\"type\":\"i32\",\"value\":" == "{" + ("\"" + "type" + "\":" + ("\"" + "i32" + "\"") + ("," + ("\"" + "value" + "\":")))
  {
  }

  lemma BytesText()
    ensures "{\"type\":\"bytes\",\"value_hex\":\""
         == "{" + ("\"" + "type" + "\":" + ("\"" + "bytes" + "\"") + ("," + ("\"" + "value_hex" + "\":"))) + "\""
  {
  }

  /** `{"type":<typ>,<name>:<value>}`, whatever the value's member is. */
  lemma TwoMembers(typ: Text, name: Text, value: Text, next: KeyFields, rest: Text)
    requires Plain(typ) && Plain(name)
    requires KeyField(name, KeyFields(Some(typ), None, None), value + ("}" + rest)) == Parsed((next, "}" + rest))
    ensures KeyAt("{" + ("\"" + "type" + "\":" + ("\"" + typ + "\"") + ("," + ("\"" + name + "\":"))) + value + "}" + rest)
         == var k :- FinishKey(next); Parsed((k, rest))
  {
    hide KeyMembers, KeyField, AfterComma, Plain, FinishKey, StringAt, Expect, NameAt;
    var w := "}" + rest;
    var second := "\"" + name + "\":" + value + w;
    var first := "\"" + "type" + "\":" + ("\"" + typ + "\"") + ("," + second);
    assert "{" + ("\"" + "type" + "\":" + ("\"" + typ + "\"") + ("," + ("\"" + name + "\":"))) + value + "}" + rest
        == "{" + first;
    var none, typed := KeyFields(None, None, None), KeyFields(Some(typ), None, None);
    Punctuation('{', first);
    KeyNames();
    PlainRoundTrip(typ, "," + second);
    TypeField(none, typ, "," + second);
    KeyMember("type", none, typed, "\"" + typ + "\"", "," + second);
    Punctuation(',', second);
    KeyMember(name, typed, next, value, w);
    Punctuation('}', rest);
    KeyEnd(next, rest);
  }

  lemma TypeField(st: KeyFields, typ: Text, rest: Text)
    requires StringAt("\"" + typ + "\"" + rest) == Parsed((typ, rest))
    ensures KeyField("type", st, "\"" + typ + "\"" + rest) == Parsed((st.(typ := Some(typ)), rest))
  {
  }

  lemma KeyEnd(st: KeyFields, rest: Text)
    ensures KeyMembers(st, "}" + rest) == Parsed((st, rest))
  {
    hide NameAt;
    ClosePrinted(rest);
  }

  lemma NumberField(st: KeyFields, v: Int64, rest: Text)
    ensures KeyField("value", st, Decimal(v) + ("}" + rest)) == Parsed((st.(number := Some(v)), "}" + rest))
  {
    hide IntegerAt, Decimal;
    IntegerRoundTrip(v, "}" + rest);
  }

  lemma HexField(st: KeyFields, b: seq<Byte>, rest: Text)
    ensures KeyField("value_hex", st, "\"" + Hex(b) + "\"" + rest) == Parsed((st.(blob := Some(b)), rest))
  {
    hide StringAt, Hex, ParseHex, Plain;
    HexRoundTrip(b);
    PlainRoundTrip(Hex(b), rest);
  }

  /** Any bound is read back as it was. */
  lemma KeyRoundTrip(k: SummaryKey, rest: Text)
    ensures KeyAt(KeyJson(k) + rest) == Parsed((k, rest))
  {
    hide KeyAt, KeyField, Plain, Hex, Decimal;
    KeyNames();
    KeyTexts();
    match k
    case I64(v) =>
      NumberField(KeyFields(Some("i64"), None, None), v, rest);
      TwoMembers("i64", "value", Decimal(v), KeyFields(Some("i64"), Some(v), None), rest);
    case I32(v) =>
      NumberField(KeyFields(Some("i32"), None, None), v, rest);
      TwoMembers("i32", "value", Decimal(v), KeyFields(Some("i32"), Some(v), None), rest);
    case Bytes(b) =>
      HexField(KeyFields(Some("bytes"), None, None), b, "}" + rest);
      TwoMembers("bytes", "value_hex", "\"" + Hex(b) + "\"", KeyFields(Some("bytes"), None, Some(b)), rest);
      QuotedHex(b, rest);
  }

  lemma QuotedHex(b: seq<Byte>, rest: Text)
    ensures KeyJson(Bytes(b)) + rest
         == "{" + ("\"" + "type" + "\":" + ("\"" + "bytes" + "\"") + ("," + ("\"" + "value_hex" + "\":")))
            + ("\"" + Hex(b) + "\"") + "}" + rest
  {
    hide Hex;
    KeyTexts();
    assert "\"}" == "\"" + "}";
    Requote("{" + ("\"" + "type" + "\":" + ("\"" + "bytes" + "\"") + ("," + ("\"" + "value_hex" + "\":"))), "\"", Hex(b), "}", rest);
  }

  lemma Requote(a: Text, quote: Text, hex: Text, close: Text, rest: Text)
    ensures a + quote + hex + (quote + close) + rest == a + (quote + hex + quote) + close + rest
  {
  }

  // ----- a summary read back -----

  lemma SummaryNames()
    ensures Plain("name") && Plain("min_key") && Plain("max_key") && Plain("dataset_bloom_hex")
  {
  }

  /** One printed member of a summary. */
  lemma SummaryMember(name: Text, st: SummaryFields, value: Text, rest: Text)
    requires Plain(name)
    ensures SummaryMembers(st, "\"" + name + "\":" + (value + rest))
         == var (next, b) :- SummaryField(name, st, value + rest); SummaryMembers(next, AfterComma(b))
  {
    hide NameAt, SummaryField, AfterComma, Plain;
    NamePrinted(name, value + rest);
  }

  /** A member behind its comma. */
  lemma CommaMember(name: Text, st: SummaryFields, value: Text, rest: Text, next: SummaryFields)
    requires Plain(name) && SummaryField(name, st, value + rest) == Parsed((next, rest))
    ensures SummaryMembers(st, AfterComma(",\"" + name + "\":" + value + rest)) == SummaryMembers(next, AfterComma(rest))
  {
    hide SummaryField, SummaryMembers, Plain, AfterComma;
    var member := "\"" + name + "\":" + (value + rest);
    assert ",\"" + name + "\":" + value + rest == "," + member;
    Punctuation(',', member);
    SummaryMember(name, st, value, rest);
  }

  lemma MinMember(st: SummaryFields, k: Option<SummaryKey>, rest: Text)
    requires st.min.None?
    ensures SummaryMembers(st, AfterComma(OptionalKeyJson(",\"min_key\":", k) + rest))
         == SummaryMembers(st.(min := k), AfterComma(rest))
  {
    hide SummaryMembers, AfterComma, KeyAt, KeyJson;
    if k.Some? {
      SummaryNames();
      KeyRoundTrip(k.value, rest);
      CommaMember("min_key", st, KeyJson(k.value), rest, st.(min := k));
      assert ",\"min_key\":" == ",\"" + "min_key" + "\":";
    } else {
      assert "" + rest == rest;
    }
  }

  lemma MaxMember(st: SummaryFields, k: Option<SummaryKey>, rest: Text)
    requires st.max.None?
    ensures SummaryMembers(st, AfterComma(OptionalKeyJson(",\"max_key\":", k) + rest))
         == SummaryMembers(st.(max := k), AfterComma(rest))
  {
    hide SummaryMembers, AfterComma, KeyAt, KeyJson;
    if k.Some? {
      SummaryNames();
      KeyRoundTrip(k.value, rest);
      CommaMember("max_key", st, KeyJson(k.value), rest, st.(max := k));
      assert ",\"max_key\":" == ",\"" + "max_key" + "\":";
    } else {
      assert "" + rest == rest;
    }
  }

  lemma BloomMember(st: SummaryFields, b: Option<seq<Byte>>, rest: Text)
    requires st.bloom.None?
    ensures SummaryMembers(st, AfterComma(OptionalBloomJson(b) + rest))
         == SummaryMembers(st.(bloom := b), AfterComma(rest))
  {
    hide SummaryMembers, AfterComma, StringAt, Hex, ParseHex, Plain;
    if b.Some? {
      SummaryNames();
      HexRoundTrip(b.value);
      PlainRoundTrip(Hex(b.value), rest);
      CommaMember("dataset_bloom_hex", st, "\"" + Hex(b.value) + "\"", rest, st.(bloom := b));
      BloomText(Hex(b.value), rest);
    } else {
      assert "" + rest == rest;
    }
  }

  lemma BloomText(hex: Text, rest: Text)
    ensures ",\"dataset_bloom_hex\":\"" + hex + "\"" + rest
         == ",\"" + "dataset_bloom_hex" + "\":" + ("\"" + hex + "\"") + rest
  {
    assert ",\"dataset_bloom_hex\":\"" == ",\"" + "dataset_bloom_hex" + "\":" + "\"";
  }

  lemma SummaryEnd(st: SummaryFields, rest: Text)
    ensures SummaryMembers(st, AfterComma("}" + rest)) == Parsed((st, rest))
  {
    hide NameAt, AfterComma;
    Punctuation('}', rest);
    ClosePrinted(rest);
  }

  function MangledSummary(s: IndexSummary): IndexSummary {
    s.(name := Mangled(s.name, false))
  }

  /** A summary is read back with its name mangled, exactly when the name is clean. */
  lemma SummaryRoundTrip(s: IndexSummary, rest: Text)
    ensures SummaryAt(SummaryJson(s) + rest) == if Clean(s.name) then Parsed((MangledSummary(s), rest)) else Malformed
  {
    hide SummaryMembers, AfterComma, StringAt, JsonString, Mangled, Clean, Plain, OptionalKeyJson, OptionalBloomJson, Expect;
    var t3 := "}" + rest;
    var t2 := OptionalBloomJson(s.bloom) + t3;
    var t1 := OptionalKeyJson(",\"max_key\":", s.max) + t2;
    var t0 := OptionalKeyJson(",\"min_key\":", s.min) + t1;
    var none := SummaryFields(None, None, None, None);
    SummaryText(s, rest, t0);
    var body := "\"" + "name" + "\":" + (JsonString(s.name) + t0);
    Punctuation('{', body);
    SummaryNames();
    StringRoundTrip(s.name, t0);
    SummaryMember("name", none, JsonString(s.name), t0);
    if Clean(s.name) {
      var named := none.(name := Some(Mangled(s.name, false)));
      MinMember(named, s.min, t1);
      MaxMember(named.(min := s.min), s.max, t2);
      BloomMember(named.(min := s.min, max := s.max), s.bloom, t3);
      SummaryEnd(named.(min := s.min, max := s.max, bloom := s.bloom), rest);
    }
  }

  lemma SummaryText(s: IndexSummary, rest: Text, t0: Text)
    requires t0 == OptionalKeyJson(",\"min_key\":", s.min) + (OptionalKeyJson(",\"max_key\":", s.max)
                   + (OptionalBloomJson(s.bloom) + ("}" + rest)))
    ensures SummaryJson(s) + rest == "{" + ("\"" + "name" + "\":" + (JsonString(s.name) + t0))
  {
    hide JsonString, OptionalKeyJson, OptionalBloomJson;
    assert "{\"name\":" == "{" + ("\"" + "name" + "\":");
  }

  // ----- the list and the whole extension -----

  predicate AllClean(list: seq<IndexSummary>) {
    list == [] || (Clean(list[0].name) && AllClean(list[1..]))
  }

  function AllMangled(list: seq<IndexSummary>): (r: seq<IndexSummary>)
    ensures |r| == |list|
  {
    if list == [] then [] else [MangledSummary(list[0])] + AllMangled(list[1..])
  }

  /** The elements of a printed list, from the first that is left. */
  lemma {:induction false} ElementsRoundTrip(out: seq<IndexSummary>, list: seq<IndexSummary>, rest: Text)
    ensures Elements(out, SummariesJson(list) + ("]" + rest))
         == if AllClean(list) then Parsed((out + AllMangled(list), rest)) else Malformed
    decreases |list|
  {
    hide SummaryAt, SummaryJson, Clean, AfterComma, TryClose, MangledSummary;
    var w := "]" + rest;
    if list == [] {
      assert "" + w == w;
      Punctuation(']', rest);
      assert out + [] == out;
    } else {
      var tail := if |list| == 1 then w else "," + (SummariesJson(list[1..]) + w);
      ListText(list, w, tail);
      SummaryStarts(list[0], tail);
      SummaryRoundTrip(list[0], tail);
      if Clean(list[0].name) {
        var one := MangledSummary(list[0]);
        ElementsRoundTrip(out + [one], list[1..], rest);
        ListTail(list, w, tail, rest);
        assert out + [one] + AllMangled(list[1..]) == out + ([one] + AllMangled(list[1..]));
      }
    }
  }

  lemma ListText(list: seq<IndexSummary>, w: Text, tail: Text)
    requires list != [] && tail == if |list| == 1 then w else "," + (SummariesJson(list[1..]) + w)
    ensures SummariesJson(list) + w == SummaryJson(list[0]) + tail
  {
    hide SummaryJson;
    if |list| > 1 {
      Regroup(SummaryJson(list[0]), ",", SummariesJson(list[1..]), w);
    }
  }

  lemma Regroup(a: Text, b: Text, c: Text, d: Text)
    ensures a + b + c + d == a + (b + (c + d))
  {
  }

  lemma ListTail(list: seq<IndexSummary>, w: Text, tail: Text, rest: Text)
    requires list != [] && tail == if |list| == 1 then w else "," + (SummariesJson(list[1..]) + w)
    requires w == "]" + rest
    ensures AfterComma(tail) == SummariesJson(list[1..]) + w
  {
    hide SummaryJson, AfterComma;
    if |list| == 1 {
      Punctuation(']', rest);
      assert "" + w == w;
    } else {
      Punctuation(',', SummariesJson(list[1..]) + w);
    }
  }

  lemma SummaryStarts(s: IndexSummary, tail: Text)
    ensures TryClose(SummaryJson(s) + tail, ']') == (false, SummaryJson(s) + tail)
  {
    hide JsonString, OptionalKeyJson, OptionalBloomJson;
    var t := SummaryJson(s) + tail;
    assert t == ['{'] + t[1..];
    Punctuation('{', t[1..]);
  }

  lemma TopNames()
    ensures Plain("version") && Plain("sidecar_relative_path") && Plain("summaries") && Plain("v1")
  {
  }

  lemma TopMember(name: Text, st: TopFields, value: Text, rest: Text)
    requires Plain(name)
    ensures TopMembers(st, "\"" + name + "\":" + (value + rest))
         == var (next, b) :- TopField(name, st, value + rest); TopMembers(next, AfterComma(b))
  {
    hide NameAt, TopField, AfterComma, Plain;
    NamePrinted(name, value + rest);
  }

  lemma VersionTexts()
    ensures "{\"version\":" == "{" + ("\"" + "version" + "\":")
    ensures "{\"version\":\"" == "{\"version\":" + "\""
  {
  }

  lemma QuotedPathText()
    ensures "\",\"sidecar_relative_path\":" == "\"" + ",\"sidecar_relative_path\":"
  {
  }

  lemma PathText()
    ensures ",\"sidecar_relative_path\":" == "," + ("\"" + "sidecar_relative_path" + "\":")
  {
  }

  lemma SummariesTexts()
    ensures ",\"summaries\":[" == "," + ("\"" + "summaries" + "\":") + "["
    ensures "]}" == "]" + "}"
  {
  }

  /** The three members, each with its comma behind it. */
  function ThirdMember(list: Text): Text {
    "\"" + "summaries" + "\":" + (("[" + list + "]") + "}")
  }

  function SecondMember(path: Text, rest: Text): Text {
    "\"" + "sidecar_relative_path" + "\":" + (path + ("," + rest))
  }

  function FirstMember(version: Text, rest: Text): Text {
    "\"" + "version" + "\":" + (version + ("," + rest))
  }

  lemma ThirdText(list: Text)
    ensures ",\"summaries\":[" + list + "]}" == "," + ThirdMember(list)
  {
    SummariesTexts();
  }

  lemma SecondText(path: Text, rest: Text)
    ensures ",\"sidecar_relative_path\":" + path + ("," + rest) == "," + SecondMember(path, rest)
  {
    PathText();
  }

  lemma FirstText(version: Text, rest: Text)
    ensures "{\"version\":" + version + ("," + rest) == "{" + FirstMember(version, rest)
  {
    VersionTexts();
  }

  lemma Joined(a: Text, b: Text, c: Text, d: Text, e: Text, f: Text, g: Text)
    ensures a + b + c + d + e + f + g == a + b + (c + d + (e + f + g))
  {
  }

  /** The printed form with any version text in it. */
  function Printed(version: Text, e: DataFileExtension): Text {
    "{\"version\":" + JsonString(version) + ",\"sidecar_relative_path\":" + JsonString(e.path) + ",\"summaries\":["
    + SummariesJson(e.summaries) + "]}"
  }

  lemma PrintedText(version: Text, e: DataFileExtension)
    ensures Printed(version, e)
         == "{" + FirstMember(JsonString(version), SecondMember(JsonString(e.path), ThirdMember(SummariesJson(e.summaries))))
  {
    hide JsonString, SummariesJson, FirstMember, SecondMember, ThirdMember;
    var path, list := JsonString(e.path), SummariesJson(e.summaries);
    ThirdText(list);
    SecondText(path, ThirdMember(list));
    FirstText(JsonString(version), SecondMember(path, ThirdMember(list)));
    Joined("{\"version\":", JsonString(version), ",\"sidecar_relative_path\":", path, ",\"summaries\":[", list, "]}");
  }

  /** What is printed is the form of version v1. */
  lemma ToJsonIsV1(e: DataFileExtension)
    ensures ToJson(e) == Printed("v1", e)
  {
    hide SummariesJson, Plain;
    VersionTexts();
    QuotedPathText();
    TopNames();
    PlainEscapes("v1");
    hide Escaped;
    QuotedVersion("{\"version\":", "v1", ",\"sidecar_relative_path\":");
  }

  lemma QuotedVersion(a: Text, version: Text, b: Text)
    ensures a + "\"" + version + ("\"" + b) == a + ("\"" + version + "\"") + b
  {
  }

  function MangledExtension(e: DataFileExtension): DataFileExtension {
    DataFileExtension(Mangled(e.path, false), AllMangled(e.summaries))
  }

  predicate CleanExtension(e: DataFileExtension) {
    Clean(e.path) && AllClean(e.summaries)
  }

  /** Exactly what reading the printed form gives, whatever version it names: the version is looked at
      before anything else is missed. */
  lemma PrintedRead(version: Text, e: DataFileExtension)
    ensures FromJson(Printed(version, e))
         == if !Clean(version) || !CleanExtension(e) then Malformed
            else if Mangled(version, false) != "v1" then UnsupportedVersion(Mangled(version, false))
            else Parsed(MangledExtension(e))
  {
    hide TopMembers, TopField, AfterComma, StringAt, JsonString, Mangled, Clean, AllClean, AllMangled, Plain, Elements, SummariesJson, Expect, Printed;
    hide FirstMember, SecondMember, ThirdMember;
    var third := ThirdMember(SummariesJson(e.summaries));
    var second := SecondMember(JsonString(e.path), third);
    var st0 := TopFields(None, None, None);
    var st1 := st0.(version := Some(Mangled(version, false)));
    PrintedText(version, e);
    Punctuation('{', FirstMember(JsonString(version), second));
    VersionRead(st0, version, second);
    PathRead(st1, e.path, third);
    if Clean(e.path) {
      SummariesRead(st1.(path := Some(Mangled(e.path, false))), e.summaries);
    }
  }

  /** In particular for what is printed. */
  lemma FromJsonOfToJson(e: DataFileExtension)
    ensures FromJson(ToJson(e)) == if CleanExtension(e) then Parsed(MangledExtension(e)) else Malformed
  {
    hide FromJson, ToJson, Printed, CleanExtension, MangledExtension;
    ToJsonIsV1(e);
    PrintedRead("v1", e);
    AsciiIsStable("v1", false);
  }

  /** A version alone: unsupported unless it is v1, and then the path is missed. */
  lemma VersionAlone(version: Text)
    ensures FromJson("{" + ("\"" + "version" + "\":" + (JsonString(version) + "}")))
         == if Clean(version) && Mangled(version, false) != "v1" then UnsupportedVersion(Mangled(version, false)) else Malformed
  {
    hide TopMembers, AfterComma, StringAt, JsonString, Mangled, Clean, Plain, Expect;
    var st := TopFields(None, None, None);
    TopNames();
    Punctuation('{', "\"" + "version" + "\":" + (JsonString(version) + "}"));
    StringRoundTrip(version, "}");
    TopMember("version", st, JsonString(version), "}");
    assert "}" == "}" + "";
    Punctuation('}', "");
    TopEnd(st.(version := Some(Mangled(version, false))));
  }

  /** An unknown version is refused, whatever the extension says. */
  lemma UnknownVersionRefused(e: DataFileExtension)
    requires PlainAscii(e.path) && PlainNames(e.summaries)
    ensures FromJson(Printed("v99", e)) == UnsupportedVersion("v99")
  {
    hide FromJson, Printed, Clean, AllClean, AllStable, Stable, PlainNames, PlainAscii, Mangled;
    PrintedRead("v99", e);
    AsciiIsStable(e.path, false);
    PlainNamesAreStable(e.summaries);
    VersionText();
    AsciiIsStable("v99", false);
  }

  lemma VersionText()
    ensures PlainAscii("v99")
  {
  }

  lemma VersionRead(st: TopFields, version: Text, rest: Text)
    ensures TopMembers(st, FirstMember(JsonString(version), rest))
         == if Clean(version) then TopMembers(st.(version := Some(Mangled(version, false))), rest) else Malformed
  {
    hide TopMembers, AfterComma, StringAt, JsonString, Mangled, Clean, Plain;
    TopNames();
    StringRoundTrip(version, "," + rest);
    TopMember("version", st, JsonString(version), "," + rest);
    Punctuation(',', rest);
  }

  lemma PathRead(st: TopFields, path: Text, rest: Text)
    ensures TopMembers(st, SecondMember(JsonString(path), rest))
         == if Clean(path) then TopMembers(st.(path := Some(Mangled(path, false))), rest) else Malformed
  {
    hide TopMembers, AfterComma, StringAt, JsonString, Mangled, Clean, Plain;
    TopNames();
    StringRoundTrip(path, "," + rest);
    TopMember("sidecar_relative_path", st, JsonString(path), "," + rest);
    Punctuation(',', rest);
  }

  lemma SummariesRead(st: TopFields, summaries: seq<IndexSummary>)
    ensures TopMembers(st, ThirdMember(SummariesJson(summaries)))
         == if AllClean(summaries) then Parsed((st.(summaries := Some(AllMangled(summaries))), "")) else Malformed
  {
    hide TopMembers, AfterComma, AllClean, AllMangled, Plain, Elements, SummariesJson, Expect;
    TopNames();
    TopMember("summaries", st, "[" + SummariesJson(summaries) + "]", "}");
    var inner := SummariesJson(summaries) + ("]" + "}");
    assert ("[" + SummariesJson(summaries) + "]") + "}" == "[" + inner;
    Punctuation('[', inner);
    ElementsRoundTrip([], summaries, "}");
    assert [] + AllMangled(summaries) == AllMangled(summaries);
    assert "}" + "" == "}";
    Punctuation('}', "");
    if AllClean(summaries) {
      TopEnd(st.(summaries := Some(AllMangled(summaries))));
    }
  }

  lemma TopEnd(st: TopFields)
    ensures TopMembers(st, "}") == Parsed((st, ""))
  {
    hide NameAt;
    ClosePrinted("");
    assert "}" + "" == "}";
  }

  // ----- exactly when nothing is lost -----

  predicate AllStable(list: seq<IndexSummary>) {
    list == [] || (Stable(list[0].name, false) && AllStable(list[1..]))
  }

  lemma {:induction false} MangledListIsIdentity(list: seq<IndexSummary>)
    ensures AllMangled(list) == list <==> AllStable(list)
  {
    hide Mangled, Stable;
    if list != [] {
      MangledIsIdentity(list[0].name, false);
      MangledListIsIdentity(list[1..]);
      assert list == [list[0]] + list[1..];
      assert AllMangled(list)[1..] == AllMangled(list[1..]);
    }
  }

  /** Printer and parser undo each other exactly for the extensions whose strings hold no control
      character but newline, return and tab, and no byte above 0x7F after a character that is escaped. */
  lemma RoundTripExactly(e: DataFileExtension)
    ensures FromJson(ToJson(e)) == Parsed(e)
       <==> CleanExtension(e) && Stable(e.path, false) && AllStable(e.summaries)
  {
    hide FromJson, ToJson, Mangled, Stable, Clean, AllClean, AllStable, AllMangled;
    FromJsonOfToJson(e);
    MangledIsIdentity(e.path, false);
    MangledListIsIdentity(e.summaries);
  }

  /** U+0001 is printed as a six-character escape the parser does not know. */
  lemma ControlCharacterRefused()
    ensures FromJson(ToJson(DataFileExtension("\U{1}", []))) == Malformed
  {
    hide FromJson, ToJson;
    FromJsonOfToJson(DataFileExtension("\U{1}", []));
  }

  /** A newline followed by an e with an acute accent, two bytes of UTF-8: each comes back as a character
      of its own, four bytes. */
  lemma AccentAfterEscapeMangled()
    ensures FromJson(ToJson(DataFileExtension("\n\U{C3}\U{A9}", [])))
         == Parsed(DataFileExtension("\n\U{C3}\U{83}\U{C2}\U{A9}", []))
  {
    hide FromJson, ToJson;
    var path := "\n\U{C3}\U{A9}";
    FromJsonOfToJson(DataFileExtension(path, []));
    assert path[1..] == "\U{C3}\U{A9}" && path[1..][1..] == "\U{A9}" && path[1..][1..][1..] == "";
    assert Clean(path);
    assert PushAsChar('\U{C3}') == "\U{C3}\U{83}" && PushAsChar('\U{A9}') == "\U{C2}\U{A9}";
    assert Mangled(path[1..], true) == "\U{C3}\U{83}" + Mangled(path[1..][1..], true);
    assert Mangled(path, false) == "\n\U{C3}\U{83}\U{C2}\U{A9}";
  }

  predicate PlainNames(list: seq<IndexSummary>) {
    list == [] || (PlainAscii(list[0].name) && PlainNames(list[1..]))
  }

  lemma {:induction false} PlainNamesAreStable(list: seq<IndexSummary>)
    requires PlainNames(list)
    ensures AllClean(list) && AllStable(list)
  {
    hide Mangled, Stable, Clean, PlainAscii;
    if list != [] {
      AsciiIsStable(list[0].name, false);
      PlainNamesAreStable(list[1..]);
    }
  }

  /** In particular for ASCII strings, with any bounds and any blob. */
  lemma AsciiRoundTrip(e: DataFileExtension)
    requires PlainAscii(e.path) && PlainNames(e.summaries)
    ensures FromJson(ToJson(e)) == Parsed(e)
  {
    hide FromJson, ToJson, Mangled, Stable, Clean, AllClean, AllStable, PlainAscii, PlainNames;
    AsciiIsStable(e.path, false);
    PlainNamesAreStable(e.summaries);
    RoundTripExactly(e);
  }
}
