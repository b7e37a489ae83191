/** The `key_metadata` wrapper: `EMTX` and the JSON, which must be UTF-8 to be read back. */
module KeyMetadata {
  import opened Bits
  import opened JsonText
  import opened Extension
  import opened JsonParser

  const MAGIC: Text := "EMTX"

  // ----- UTF-8 -----

  predicate Between(s: Text, i: nat, lo: nat, hi: nat) {
    i < |s| && lo <= s[i] as nat <= hi
  }

  predicate Cont(s: Text, i: nat) {
    Between(s, i, 0x80, 0xBF)
  }

  /** The length of the first well-formed character, 0 if there is none. */
  function CharLen(s: Text): (n: nat)
    ensures n <= |s| && n <= 4
  {
    if s == "" then 0
    else
      var b := s[0] as nat;
      if b < 0x80 then 1
      else if 0xC2 <= b <= 0xDF && Cont(s, 1) then 2
      else if b == 0xE0 && Between(s, 1, 0xA0, 0xBF) && Cont(s, 2) then 3
      else if (0xE1 <= b <= 0xEC || 0xEE <= b <= 0xEF) && Cont(s, 1) && Cont(s, 2) then 3
      else if b == 0xED && Between(s, 1, 0x80, 0x9F) && Cont(s, 2) then 3
      else if b == 0xF0 && Between(s, 1, 0x90, 0xBF) && Cont(s, 2) && Cont(s, 3) then 4
      else if 0xF1 <= b <= 0xF3 && Cont(s, 1) && Cont(s, 2) && Cont(s, 3) then 4
      else if b == 0xF4 && Between(s, 1, 0x80, 0x8F) && Cont(s, 2) && Cont(s, 3) then 4
      else 0
  }

  predicate Utf8(s: Text)
    decreases |s|
  {
    s == "" || (CharLen(s) > 0 && Utf8(s[CharLen(s)..]))
  }

  // ----- that is what UTF-8 is -----

  /** A Unicode scalar value. */
  type Scalar = c: int | 0 <= c < 0x11_0000 && !(0xD800 <= c < 0xE000)

  /** Its one to four bytes (RFC 3629, section 3). */
  function EncodeScalar(c: Scalar): (t: Text)
    ensures 1 <= |t| <= 4
  {
    if c < 0x80 then [c as char]
    else if c < 0x800 then [(0xC0 + c / 64) as char, (0x80 + c % 64) as char]
    else if c < 0x1_0000 then [(0xE0 + c / 4096) as char, (0x80 + c / 64 % 64) as char, (0x80 + c % 64) as char]
    else [(0xF0 + c / 262144) as char, (0x80 + c / 4096 % 64) as char, (0x80 + c / 64 % 64) as char, (0x80 + c % 64) as char]
  }

  function EncodeScalars(cs: seq<Scalar>): Text {
    if cs == [] then "" else EncodeScalar(cs[0]) + EncodeScalars(cs[1..])
  }

  lemma ScalarLength(c: Scalar, rest: Text)
    ensures CharLen(EncodeScalar(c) + rest) == |EncodeScalar(c)|
  {
    hide CharLen;
    if c < 0x80 {
      LengthOne(c as char, rest);
    } else if c < 0x800 {
      LengthTwo(c / 64, c % 64, rest);
    } else if c < 0x1_0000 {
      assert c / 64 == 64 * (c / 4096) + c / 64 % 64;
      LengthThree(c / 4096, c / 64 % 64, c % 64, rest);
    } else {
      assert c / 4096 == 64 * (c / 262144) + c / 4096 % 64;
      LengthFour(c / 262144, c / 4096 % 64, c / 64 % 64, c % 64, rest);
    }
  }

  lemma LengthOne(c: char, rest: Text)
    requires c as nat < 0x80
    ensures CharLen([c] + rest) == 1
  {
  }

  lemma LengthTwo(a: int, b: int, rest: Text)
    requires 2 <= a < 32 && 0 <= b < 64
    ensures CharLen([(0xC0 + a) as char, (0x80 + b) as char] + rest) == 2
  {
  }

  lemma LengthThree(a: int, b: int, d: int, rest: Text)
    requires 0 <= a < 16 && 0 <= b < 64 && 0 <= d < 64 && (a == 0 ==> b >= 32) && (a == 13 ==> b < 32)
    ensures CharLen([(0xE0 + a) as char, (0x80 + b) as char, (0x80 + d) as char] + rest) == 3
  {
  }

  lemma LengthFour(a: int, b: int, d: int, e: int, rest: Text)
    requires 0 <= a < 5 && 0 <= b < 64 && 0 <= d < 64 && 0 <= e < 64 && (a == 0 ==> b >= 16) && (a == 4 ==> b < 16)
    ensures CharLen([(0xF0 + a) as char, (0x80 + b) as char, (0x80 + d) as char, (0x80 + e) as char] + rest) == 4
  {
  }

  lemma ScalarOf(s: Text) returns (c: Scalar)
    requires CharLen(s) > 0
    ensures EncodeScalar(c) == s[..CharLen(s)]
  {
    var n := CharLen(s);
    var b0 := s[0] as int;
    if n == 1 {
      c := b0;
    } else if n == 2 {
      c := TwoBytes(b0 - 0xC0, s[1] as int - 0x80);
    } else if n == 3 {
      c := ThreeBytes(b0 - 0xE0, s[1] as int - 0x80, s[2] as int - 0x80);
    } else {
      c := FourBytes(b0 - 0xF0, s[1] as int - 0x80, s[2] as int - 0x80, s[3] as int - 0x80);
    }
  }

  lemma TwoBytes(a: int, b: int) returns (c: Scalar)
    requires 2 <= a < 32 && 0 <= b < 64
    ensures EncodeScalar(c) == [(0xC0 + a) as char, (0x80 + b) as char]
  {
    c := 64 * a + b;
  }

  lemma ThreeBytes(a: int, b: int, d: int) returns (c: Scalar)
    requires 0 <= a < 16 && 0 <= b < 64 && 0 <= d < 64 && (a == 0 ==> b >= 32) && (a == 13 ==> b < 32)
    ensures EncodeScalar(c) == [(0xE0 + a) as char, (0x80 + b) as char, (0x80 + d) as char]
  {
    c := 4096 * a + 64 * b + d;
    assert c / 64 == 64 * a + b && c / 4096 == a;
  }

  lemma FourBytes(a: int, b: int, d: int, e: int) returns (c: Scalar)
    requires 0 <= a < 5 && 0 <= b < 64 && 0 <= d < 64 && 0 <= e < 64 && (a == 0 ==> b >= 16) && (a == 4 ==> b < 16)
    ensures EncodeScalar(c) == [(0xF0 + a) as char, (0x80 + b) as char, (0x80 + d) as char, (0x80 + e) as char]
  {
    c := 262144 * a + 4096 * b + 64 * d + e;
    assert c / 64 == 4096 * a + 64 * b + d && c / 4096 == 64 * a + b && c / 262144 == a;
  }

  /** The check accepts exactly the encodings of scalar values. */
  lemma Utf8Exactly(s: Text)
    ensures Utf8(s) <==> exists cs: seq<Scalar> :: s == EncodeScalars(cs)
  {
    if Utf8(s) {
      var cs := ScalarsOf(s);
    } else {
      forall cs: seq<Scalar> | s == EncodeScalars(cs)
        ensures false
      {
        ScalarsAreUtf8(cs);
      }
    }
  }

  lemma {:induction false} ScalarsOf(s: Text) returns (cs: seq<Scalar>)
    requires Utf8(s)
    ensures s == EncodeScalars(cs)
    decreases |s|
  {
    hide CharLen, EncodeScalar;
    if s == "" {
      cs := [];
    } else {
      var c := ScalarOf(s);
      var more := ScalarsOf(s[CharLen(s)..]);
      cs := [c] + more;
      assert s == s[..CharLen(s)] + s[CharLen(s)..];
    }
  }

  lemma {:induction false} ScalarsAreUtf8(cs: seq<Scalar>)
    ensures Utf8(EncodeScalars(cs))
  {
    hide CharLen, EncodeScalar;
    if cs != [] {
      var s := EncodeScalars(cs);
      ScalarLength(cs[0], EncodeScalars(cs[1..]));
      ScalarsAreUtf8(cs[1..]);
      assert s[|EncodeScalar(cs[0])|..] == EncodeScalars(cs[1..]);
    }
  }

  /** A byte pushed as a character becomes the UTF-8 form of that code point. */
  lemma PushedCharacter(c: char)
    requires c as nat < 256
    ensures PushAsChar(c) == EncodeScalar(c as int)
  {
  }

  lemma CharLenAppend(a: Text, b: Text)
    requires CharLen(a) > 0
    ensures CharLen(a + b) == CharLen(a)
  {
  }

  lemma {:induction false} Utf8Append(a: Text, b: Text)
    requires Utf8(a) && Utf8(b)
    ensures Utf8(a + b)
    decreases |a|
  {
    hide CharLen;
    if a == "" {
      assert a + b == b;
    } else {
      CharLenAppend(a, b);
      assert (a + b)[CharLen(a)..] == a[CharLen(a)..] + b;
      Utf8Append(a[CharLen(a)..], b);
    }
  }

  lemma {:induction false} AsciiUtf8(s: Text)
    requires forall i :: 0 <= i < |s| ==> s[i] as nat < 0x80
    ensures Utf8(s)
    decreases |s|
  {
    if s != "" {
      AsciiUtf8(s[1..]);
    }
  }

  /** The first character alone. */
  lemma FirstChar(s: Text)
    requires CharLen(s) > 0
    ensures Utf8(s[..CharLen(s)])
    ensures CharLen(s) > 1 ==> forall i :: 0 <= i < CharLen(s) ==> s[i] as nat >= 0x80
  {
    var c := s[..CharLen(s)];
    assert CharLen(c) == CharLen(s);
    assert c[CharLen(c)..] == "";
  }

  lemma EscapeIsAscii(c: char)
    requires c as nat < 0x80
    ensures forall i :: 0 <= i < |EscapeChar(c)| ==> EscapeChar(c)[i] as nat < 0x80
  {
  }

  /** Bytes above 0x7F are printed as they are. */
  lemma {:induction false} EscapedHigh(v: Text, n: nat)
    requires n <= |v| && forall i :: 0 <= i < n ==> v[i] as nat >= 0x80
    ensures Escaped(v) == v[..n] + Escaped(v[n..])
    decreases n
  {
    hide EscapeChar;
    if n > 0 {
      var rest := v[1..];
      EscapedHigh(rest, n - 1);
      HighChar(v[0]);
      assert rest[n - 1..] == v[n..];
      assert v[..n] == [v[0]] + rest[..n - 1];
      hide Escaped;
      assert [v[0]] + (rest[..n - 1] + Escaped(v[n..])) == [v[0]] + rest[..n - 1] + Escaped(v[n..]);
    } else {
      assert v[0..] == v && v[..0] + Escaped(v) == Escaped(v);
    }
  }

  lemma HighChar(c: char)
    requires c as nat >= 0x80
    ensures EscapeChar(c) == [c]
  {
  }

  lemma {:induction false} EscapedUtf8(v: Text)
    requires Utf8(v)
    ensures Utf8(Escaped(v))
    decreases |v|
  {
    hide EscapeChar, CharLen;
    if v != "" {
      var n := CharLen(v);
      EscapedUtf8(v[n..]);
      FirstChar(v);
      if n == 1 {
        OneByteChar(v);
        EscapeIsAscii(v[0]);
        AsciiUtf8(EscapeChar(v[0]));
        Utf8Append(EscapeChar(v[0]), Escaped(v[1..]));
      } else {
        EscapedHigh(v, n);
        Utf8Append(v[..n], Escaped(v[n..]));
      }
    }
  }

  lemma OneByteChar(v: Text)
    requires CharLen(v) == 1
    ensures v[0] as nat < 0x80
  {
  }

  lemma JsonStringUtf8(v: Text)
    requires Utf8(v)
    ensures Utf8(JsonString(v))
  {
    hide Utf8, Escaped;
    EscapedUtf8(v);
    AsciiUtf8("\"");
    Utf8Append("\"", Escaped(v));
    Utf8Append("\"" + Escaped(v), "\"");
  }

  lemma PlainTextUtf8(text: Text)
    requires Plain(text)
    ensures Utf8(text)
  {
    AsciiUtf8(text);
  }

  lemma DecimalUtf8(v: int)
    ensures Utf8(Decimal(v))
  {
    hide Utf8, DecimalNat;
    var n := if v < 0 then -v else v;
    DecimalRoundTrip(n);
    AsciiUtf8(DecimalNat(n));
    AsciiUtf8("-");
    Utf8Append("-", DecimalNat(n));
  }

  lemma KeyUtf8(k: SummaryKey)
    ensures Utf8(KeyJson(k))
  {
    hide Utf8, Decimal, Hex, Plain;
    match k
    case I64(v) =>
      DecimalUtf8(v);
      Wrapped("{\"type\":\"i64\",\"value\":", Decimal(v), "}");
    case I32(v) =>
      DecimalUtf8(v);
      Wrapped("{\"type\":\"i32\",\"value\":", Decimal(v), "}");
    case Bytes(b) =>
      HexRoundTrip(b);
      PlainTextUtf8(Hex(b));
      Wrapped("{\"type\":\"bytes\",\"value_hex\":\"", Hex(b), "\"}");
  }

  lemma Wrapped(a: Text, b: Text, c: Text)
    requires forall i :: 0 <= i < |a| ==> a[i] as nat < 0x80
    requires forall i :: 0 <= i < |c| ==> c[i] as nat < 0x80
    requires Utf8(b)
    ensures Utf8(a + b + c)
  {
    hide Utf8;
    AsciiUtf8(a);
    AsciiUtf8(c);
    Utf8Append(a, b);
    Utf8Append(a + b, c);
  }

  lemma OptionalKeyUtf8(prefix: Text, k: Option<SummaryKey>)
    requires forall i :: 0 <= i < |prefix| ==> prefix[i] as nat < 0x80
    ensures Utf8(OptionalKeyJson(prefix, k))
  {
    hide Utf8, KeyJson;
    AsciiUtf8("");
    if k.Some? {
      KeyUtf8(k.value);
      AsciiUtf8(prefix);
      Utf8Append(prefix, KeyJson(k.value));
    }
  }

  lemma OptionalBloomUtf8(b: Option<seq<Byte>>)
    ensures Utf8(OptionalBloomJson(b))
  {
    hide Utf8, Hex, Plain;
    AsciiUtf8("");
    if b.Some? {
      HexRoundTrip(b.value);
      PlainTextUtf8(Hex(b.value));
      Wrapped(",\"dataset_bloom_hex\":\"", Hex(b.value), "\"");
    }
  }

  lemma SummaryUtf8(s: IndexSummary)
    requires Utf8(s.name)
    ensures Utf8(SummaryJson(s))
  {
    hide Utf8, JsonString, OptionalKeyJson, OptionalBloomJson;
    JsonStringUtf8(s.name);
    OptionalKeyUtf8(",\"min_key\":", s.min);
    OptionalKeyUtf8(",\"max_key\":", s.max);
    OptionalBloomUtf8(s.bloom);
    AsciiUtf8("}");
    AsciiUtf8("{\"name\":");
    var a := "{\"name\":" + JsonString(s.name);
    Utf8Append("{\"name\":", JsonString(s.name));
    Utf8Append(a, OptionalKeyJson(",\"min_key\":", s.min));
    Utf8Append(a + OptionalKeyJson(",\"min_key\":", s.min), OptionalKeyJson(",\"max_key\":", s.max));
    var b := a + OptionalKeyJson(",\"min_key\":", s.min) + OptionalKeyJson(",\"max_key\":", s.max);
    Utf8Append(b, OptionalBloomJson(s.bloom));
    Utf8Append(b + OptionalBloomJson(s.bloom), "}");
  }

  predicate Utf8Names(list: seq<IndexSummary>) {
    list == [] || (Utf8(list[0].name) && Utf8Names(list[1..]))
  }

  lemma {:induction false} ListUtf8(list: seq<IndexSummary>)
    requires Utf8Names(list)
    ensures Utf8(SummariesJson(list))
    decreases |list|
  {
    hide Utf8, SummaryJson;
    AsciiUtf8("");
    AsciiUtf8(",");
    if list != [] {
      SummaryUtf8(list[0]);
      ListUtf8(list[1..]);
      Utf8Append(SummaryJson(list[0]), ",");
      Utf8Append(SummaryJson(list[0]) + ",", SummariesJson(list[1..]));
    }
  }

  /** The printed extension is UTF-8 when its strings are, as Rust strings always are. */
  lemma ToJsonUtf8(e: DataFileExtension)
    requires Utf8(e.path) && Utf8Names(e.summaries)
    ensures Utf8(ToJson(e))
  {
    hide Utf8, JsonString, SummariesJson;
    JsonStringUtf8(e.path);
    ListUtf8(e.summaries);
    var a := "{\"version\":\"" + "v1" + "\",\"sidecar_relative_path\":";
    AsciiUtf8(a);
    AsciiUtf8(",\"summaries\":[");
    AsciiUtf8("]}");
    Utf8Append(a, JsonString(e.path));
    Utf8Append(a + JsonString(e.path), ",\"summaries\":[");
    Utf8Append(a + JsonString(e.path) + ",\"summaries\":[", SummariesJson(e.summaries));
    Utf8Append(a + JsonString(e.path) + ",\"summaries\":[" + SummariesJson(e.summaries), "]}");
  }

  // ----- the wrapper -----

  function Encoded(e: DataFileExtension): Text {
    MAGIC + ToJson(e)
  }

  /** `Ok(None)` for a payload without the magic: someone else's metadata is not an error. */
  function Decoded(bytes: Text): Parsed<Option<DataFileExtension>> {
    if |bytes| < 4 || bytes[..4] != MAGIC then Parsed(None)
    else if !Utf8(bytes[4..]) then Malformed
    else
      var e :- FromJson(bytes[4..]);
      Parsed(Some(e))
  }

  /** Anything that does not start with the magic is someone else's. */
  lemma ForeignMetadata(bytes: Text)
    requires !("EMTX" <= bytes)
    ensures Decoded(bytes) == Parsed(None)
  {
    hide FromJson, Utf8;
    if |bytes| >= 4 {
      assert bytes[..4] == MAGIC ==> "EMTX" <= bytes;
    }
  }

  /** Behind the magic, text that is no UTF-8 is malformed, and any other is what its JSON is. */
  lemma MagicMeaning(json: Text)
    ensures !Utf8(json) ==> Decoded("EMTX" + json) == Malformed
    ensures Utf8(json) ==>
              Decoded("EMTX" + json) == match FromJson(json)
                                        case Parsed(e) => Parsed(Some(e))
                                        case Malformed => Malformed
                                        case UnsupportedVersion(v) => UnsupportedVersion(v)
  {
    hide FromJson, Utf8;
    var bytes := "EMTX" + json;
    assert bytes[..4] == "EMTX" && bytes[4..] == json;
  }

  /** `encode_key_metadata`. */
  method EncodeKeyMetadata(e: DataFileExtension) returns (bytes: Text)
    ensures bytes == Encoded(e)
  {
    var json := WriteExtension(e);
    bytes := MAGIC;
    bytes := bytes + json;
  }

  /** `decode_key_metadata`. */
  method DecodeKeyMetadata(bytes: Text) returns (r: Parsed<Option<DataFileExtension>>)
    ensures r == Decoded(bytes)
  {
    hide FromJson, Utf8;
    if |bytes| < |MAGIC| || bytes[..|MAGIC|] != MAGIC {
      return Parsed(None);
    }
    var json := bytes[|MAGIC|..];
    if !Utf8(json) {
      return Malformed;
    }
    var e :- ReadExtension(json);
    return Parsed(Some(e));
  }

  /** The wrapper preserves exactly what the JSON preserves. */
  lemma WrapperRoundTrip(e: DataFileExtension)
    requires Utf8(e.path) && Utf8Names(e.summaries)
    ensures Decoded(Encoded(e)) == if CleanExtension(e) then Parsed(Some(MangledExtension(e))) else Malformed
  {
    hide Utf8, ToJson, FromJson, CleanExtension, MangledExtension, Utf8Names;
    ToJsonUtf8(e);
    FromJsonOfToJson(e);
    assert Encoded(e)[4..] == ToJson(e) && Encoded(e)[..4] == MAGIC;
  }

  lemma WrapperAsciiRoundTrip(e: DataFileExtension)
    requires PlainAscii(e.path) && PlainNames(e.summaries)
    ensures Decoded(Encoded(e)) == Parsed(Some(e))
  {
    hide Utf8, ToJson, FromJson, PlainAscii, PlainNames, Utf8Names;
    PlainUtf8(e.path);
    PlainNamesUtf8(e.summaries);
    ToJsonUtf8(e);
    AsciiRoundTrip(e);
    assert Encoded(e)[4..] == ToJson(e) && Encoded(e)[..4] == MAGIC;
  }

  lemma PlainUtf8(v: Text)
    requires PlainAscii(v)
    ensures Utf8(v)
  {
    AsciiUtf8(v);
  }

  lemma {:induction false} PlainNamesUtf8(list: seq<IndexSummary>)
    requires PlainNames(list)
    ensures Utf8Names(list)
  {
    hide Utf8, PlainAscii;
    if list != [] {
      PlainUtf8(list[0].name);
      PlainNamesUtf8(list[1..]);
    }
  }
}
