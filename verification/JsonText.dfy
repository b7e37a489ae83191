/** The lexical level of the extension's JSON: how strings, integers and hex blobs are printed, and
    how they are read back. A text is the UTF-8 form of a Rust string, one char (below 256) a byte. */
module JsonText {
  import opened Bits

  type Text = string

  datatype Option<+T> = None | Some(value: T)

  datatype Parsed<+T> = Parsed(value: T) | Malformed | UnsupportedVersion(version: Text) {
    predicate IsFailure() {
      !Parsed?
    }

    function PropagateFailure<U>(): Parsed<U>
      requires !Parsed?
    {
      if Malformed? then Parsed<U>.Malformed else Parsed<U>.UnsupportedVersion(version)
    }

    function Extract(): T
      requires Parsed?
    {
      value
    }
  }

  // ----- printing -----

  function HexDigit(n: nat): char
    requires n < 16
  {
    if n < 10 then '0' + n as char else 'a' + (n - 10) as char
  }

  /** One byte of a string, escaped as the printer does. */
  function EscapeChar(c: char): Text {
    if c == '"' then "\\\""
    else if c == '\\' then "\\\\"
    else if c == '\n' then "\\n"
    else if c == '\r' then "\\r"
    else if c == '\t' then "\\t"
    else if c as nat < 0x20 then "\\u00" + [HexDigit(c as nat / 16), HexDigit(c as nat % 16)]
    else [c]
  }

  function Escaped(v: Text): Text {
    if v == "" then "" else EscapeChar(v[0]) + Escaped(v[1..])
  }

  /** `write_json_string`. */
  function JsonString(v: Text): Text {
    "\"" + Escaped(v) + "\""
  }

  function Hex(bytes: seq<Byte>): Text {
    if bytes == [] then "" else [HexDigit(bytes[0] / 16), HexDigit(bytes[0] % 16)] + Hex(bytes[1..])
  }

  function DecimalNat(n: nat): Text {
    (if n < 10 then "" else DecimalNat(n / 10)) + ['0' + (n % 10) as char]
  }

  function Decimal(v: int): Text {
    if v < 0 then "-" + DecimalNat(-v) else DecimalNat(v)
  }

  // ----- reading: each reader maps a text to a value and the rest of the text -----

  predicate IsSpace(c: char) {
    c == ' ' || c == '\t' || c == '\n' || c == '\r'
  }

  function SkipSpace(s: Text): (r: Text)
    ensures |r| <= |s|
  {
    if s != "" && IsSpace(s[0]) then SkipSpace(s[1..]) else s
  }

  function Expect(s: Text, c: char): (r: Parsed<Text>)
    ensures !r.UnsupportedVersion?
    ensures r.Parsed? ==> |r.value| < |s|
  {
    var t := SkipSpace(s);
    if t != "" && t[0] == c then Parsed(t[1..]) else Malformed
  }

  function TryClose(s: Text, c: char): (r: (bool, Text))
    ensures |r.1| <= |s| && (r.0 ==> |r.1| < |s|)
  {
    var t := SkipSpace(s);
    if t != "" && t[0] == c then (true, t[1..]) else (false, t)
  }

  /** The comma is optional. */
  function AfterComma(s: Text): (r: Text)
    ensures |r| <= |s|
  {
    var t := SkipSpace(s);
    if t != "" && t[0] == ',' then t[1..] else t
  }

  function Unescape(s: Text): (r: Parsed<(char, Text)>)
    ensures !r.UnsupportedVersion?
    ensures r.Parsed? ==> |r.value.1| < |s|
  {
    if s == "" then Malformed
    else if s[0] == '"' || s[0] == '\\' || s[0] == '/' then Parsed((s[0], s[1..]))
    else if s[0] == 'n' then Parsed(('\n', s[1..]))
    else if s[0] == 'r' then Parsed(('\r', s[1..]))
    else if s[0] == 't' then Parsed(('\t', s[1..]))
    else Malformed
  }

  /** `out.push(c as char)`: a byte above 0x7F becomes the two-byte UTF-8 form of that code point. */
  function PushAsChar(c: char): Text {
    if c as nat < 0x80 then [c]
    else [(0xC0 + c as nat / 64 % 4) as char, (0x80 + c as nat % 64) as char]
  }

  /** The rest of a string, `out` being read. Until the first escape bytes are copied as they are;
      after it they are pushed one char per byte. */
  function StringBody(out: Text, escaped: bool, s: Text): (r: Parsed<(Text, Text)>)
    ensures !r.UnsupportedVersion?
    ensures r.Parsed? ==> |r.value.1| < |s|
    decreases |s|
  {
    if s == "" then Malformed
    else if s[0] == '"' then Parsed((out, s[1..]))
    else if s[0] == '\\' then
      var (c, rest) :- Unescape(s[1..]);
      StringBody(out + [c], true, rest)
    else StringBody(out + (if escaped then PushAsChar(s[0]) else [s[0]]), escaped, s[1..])
  }

  function StringAt(s: Text): (r: Parsed<(Text, Text)>)
    ensures !r.UnsupportedVersion?
    ensures r.Parsed? ==> |r.value.1| < |s|
  {
    var body :- Expect(s, '"');
    StringBody("", false, body)
  }

  predicate IsDigit(c: char) {
    '0' <= c <= '9'
  }

  /** The digits a text starts with. */
  function Digits(s: Text): (r: Text)
    ensures |r| <= |s|
  {
    if s != "" && IsDigit(s[0]) then [s[0]] + Digits(s[1..]) else ""
  }

  function DigitsValue(d: Text): nat {
    if d == "" then 0
    else
      var c := d[|d| - 1];
      10 * DigitsValue(d[..|d| - 1]) + (if IsDigit(c) then c as nat - '0' as nat else 0)
  }

  function Signed(negative: bool, n: int): int {
    if negative then -n else n
  }

  /** `raw.parse::<i64>()` on an optional sign and digits. */
  function ParseI64(negative: bool, digits: Text): (r: Parsed<int>)
    ensures !r.UnsupportedVersion?
    ensures r.Parsed? ==> -0x8000_0000_0000_0000 <= r.value < 0x8000_0000_0000_0000
  {
    var v := Signed(negative, DigitsValue(digits));
    if digits == "" || !(-0x8000_0000_0000_0000 <= v < 0x8000_0000_0000_0000) then Malformed else Parsed(v)
  }

  function DigitsAt(negative: bool, t: Text): (r: Parsed<(int, Text)>)
    ensures !r.UnsupportedVersion?
    ensures r.Parsed? ==> |r.value.1| < |t| && -0x8000_0000_0000_0000 <= r.value.0 < 0x8000_0000_0000_0000
  {
    var digits := Digits(t);
    var v :- ParseI64(negative, digits);
    Parsed((v, t[|digits|..]))
  }

  function IntegerAt(s: Text): (r: Parsed<(int, Text)>)
    ensures !r.UnsupportedVersion?
    ensures r.Parsed? ==> |r.value.1| < |s| && -0x8000_0000_0000_0000 <= r.value.0 < 0x8000_0000_0000_0000
  {
    var t := SkipSpace(s);
    if t != "" && t[0] == '-' then DigitsAt(true, t[1..]) else DigitsAt(false, t)
  }

  function HexNibble(c: char): (r: Parsed<nat>)
    ensures !r.UnsupportedVersion?
  {
    if '0' <= c <= '9' then Parsed(c as nat - '0' as nat)
    else if 'a' <= c <= 'f' then Parsed(10 + c as nat - 'a' as nat)
    else if 'A' <= c <= 'F' then Parsed(10 + c as nat - 'A' as nat)
    else Malformed
  }

  lemma HexNibbleBound(c: char)
    ensures HexNibble(c).Parsed? ==> HexNibble(c).value < 16
  {
  }

  /** `(hi << 4) | lo`. */
  function HexPair(c0: char, c1: char): (r: Parsed<Byte>)
    ensures !r.UnsupportedVersion?
  {
    HexNibbleBound(c0);
    HexNibbleBound(c1);
    var hi :- HexNibble(c0);
    var lo :- HexNibble(c1);
    Parsed(16 * hi + lo)
  }

  function ParseHexPairs(s: Text): (r: Parsed<seq<Byte>>)
    requires |s| % 2 == 0
    ensures !r.UnsupportedVersion?
  {
    if s == "" then Parsed([])
    else
      var b :- HexPair(s[0], s[1]);
      var more :- ParseHexPairs(s[2..]);
      Parsed([b] + more)
  }

  function ParseHex(s: Text): (r: Parsed<seq<Byte>>)
    ensures !r.UnsupportedVersion?
  {
    if |s| % 2 != 0 then Malformed else ParseHexPairs(s)
  }

  // ----- skipping a value of an unknown field -----

  function SkipWord(s: Text, word: Text): (r: Parsed<Text>)
    requires word != ""
    ensures !r.UnsupportedVersion?
    ensures r.Parsed? ==> |r.value| < |s|
  {
    if word <= s then Parsed(s[|word|..]) else Malformed
  }

  function SkipScalar(t: Text): (r: Parsed<Text>)
    requires t != ""
    ensures !r.UnsupportedVersion?
    ensures r.Parsed? ==> |r.value| < |t|
  {
    if t[0] == '"' then
      var (_, rest) :- StringAt(t);
      Parsed(rest)
    else if t[0] == 't' then SkipWord(t, "true")
    else if t[0] == 'f' then SkipWord(t, "false")
    else if t[0] == 'n' then SkipWord(t, "null")
    else if t[0] == '-' || IsDigit(t[0]) then
      var (_, rest) :- IntegerAt(t);
      Parsed(rest)
    else Malformed
  }

  /** Every reader consumes something, so the lenient parser terminates. */
  function SkipValue(s: Text): (r: Parsed<Text>)
    ensures !r.UnsupportedVersion?
    ensures r.Parsed? ==> |r.value| < |s|
    decreases |s|, 1
  {
    var t := SkipSpace(s);
    if t == "" then Malformed
    else if t[0] == '{' then SkipMembers(t[1..])
    else if t[0] == '[' then SkipElements(t[1..])
    else SkipScalar(t)
  }

  function SkipMembers(s: Text): (r: Parsed<Text>)
    ensures !r.UnsupportedVersion?
    ensures r.Parsed? ==> |r.value| < |s|
    decreases |s|, 2
  {
    var (closed, t) := TryClose(s, '}');
    if closed then Parsed(t)
    else
      var (_, a) :- StringAt(t);
      var b :- Expect(a, ':');
      var c :- SkipValue(b);
      SkipMembers(AfterComma(c))
  }

  function SkipElements(s: Text): (r: Parsed<Text>)
    ensures !r.UnsupportedVersion?
    ensures r.Parsed? ==> |r.value| < |s|
    decreases |s|, 2
  {
    var (closed, t) := TryClose(s, ']');
    if closed then Parsed(t)
    else
      var c :- SkipValue(t);
      SkipElements(AfterComma(c))
  }

  // ----- strings: what comes back -----

  predicate NeedsEscape(c: char) {
    c == '"' || c == '\\' || c == '\n' || c == '\r' || c == '\t'
  }

  /** No control character that the printer writes as `\u00XX`, which the parser refuses. */
  predicate Clean(v: Text) {
    v == "" || ((NeedsEscape(v[0]) || v[0] as nat >= 0x20) && Clean(v[1..]))
  }

  /** The string that is read back: after the first escaped character every byte above 0x7F has
      become two. */
  function Mangled(v: Text, escaped: bool): Text {
    if v == "" then ""
    else if NeedsEscape(v[0]) then [v[0]] + Mangled(v[1..], true)
    else (if escaped then PushAsChar(v[0]) else [v[0]]) + Mangled(v[1..], escaped)
  }

  lemma {:induction false} BodyRoundTrip(v: Text, out: Text, escaped: bool, rest: Text)
    ensures StringBody(out, escaped, Escaped(v) + "\"" + rest)
         == if Clean(v) then Parsed((out + Mangled(v, escaped), rest)) else Malformed
    decreases |v|
  {
    hide PushAsChar, EscapeChar, StringBody;
    if v == "" {
      QuoteStep(out, escaped, rest);
    } else {
      var c := v[0];
      var s := Escaped(v[1..]) + "\"" + rest;
      Append4(EscapeChar(c), Escaped(v[1..]), rest);
      if NeedsEscape(c) {
        EscapedStep(c, s, out, escaped);
        BodyRoundTrip(v[1..], out + [c], true, rest);
        assert out + [c] + Mangled(v[1..], true) == out + ([c] + Mangled(v[1..], true));
      } else if c as nat >= 0x20 {
        var pushed := if escaped then PushAsChar(c) else [c];
        CopiedStep(c, s, out, escaped);
        BodyRoundTrip(v[1..], out + pushed, escaped, rest);
        assert out + pushed + Mangled(v[1..], escaped) == out + (pushed + Mangled(v[1..], escaped));
      } else {
        ControlStep(c, s, out, escaped);
      }
    }
  }

  lemma Append4(e: Text, v: Text, rest: Text)
    ensures e + v + "\"" + rest == e + (v + "\"" + rest)
  {
  }

  lemma QuoteStep(out: Text, escaped: bool, rest: Text)
    ensures StringBody(out, escaped, "" + "\"" + rest) == Parsed((out + "", rest))
  {
    var s := "" + "\"" + rest;
    assert s[0] == '"' && s[1..] == rest && out + "" == out;
  }

  /** A character printed as `\u00XX` is refused. */
  lemma ControlStep(c: char, s: Text, out: Text, escaped: bool)
    requires !NeedsEscape(c) && c as nat < 0x20
    ensures StringBody(out, escaped, EscapeChar(c) + s) == Malformed
  {
    hide HexDigit;
    var t := EscapeChar(c) + s;
    assert t[0] == '\\' && t[1..][0] == 'u';
  }

  lemma CopiedStep(c: char, s: Text, out: Text, escaped: bool)
    requires !NeedsEscape(c) && c as nat >= 0x20
    ensures StringBody(out, escaped, EscapeChar(c) + s)
         == StringBody(out + (if escaped then PushAsChar(c) else [c]), escaped, s)
  {
    hide PushAsChar;
    var t := EscapeChar(c) + s;
    assert t[0] == c && t[1..] == s;
  }

  lemma EscapedStep(c: char, s: Text, out: Text, escaped: bool)
    requires NeedsEscape(c)
    ensures StringBody(out, escaped, EscapeChar(c) + s) == StringBody(out + [c], true, s)
  {
    hide PushAsChar;
    var t := EscapeChar(c) + s;
    assert t[0] == '\\' && t[1..][0] == EscapeChar(c)[1] && t[1..][1..] == s;
    assert Unescape(t[1..]) == Parsed((c, s));
  }

  /** A printed string is read back, mangled, exactly when it is clean. */
  lemma StringRoundTrip(v: Text, rest: Text)
    ensures StringAt(JsonString(v) + rest) == if Clean(v) then Parsed((Mangled(v, false), rest)) else Malformed
  {
    hide StringBody, Escaped, Clean, Mangled;
    var s := JsonString(v) + rest;
    assert s[0] == '"' && s[1..] == Escaped(v) + "\"" + rest;
    assert SkipSpace(s) == s;
    BodyRoundTrip(v, "", false, rest);
    assert "" + Mangled(v, false) == Mangled(v, false);
  }

  /** No byte above 0x7F after the first escaped character. */
  predicate Stable(v: Text, escaped: bool) {
    v == "" || (if NeedsEscape(v[0]) then Stable(v[1..], true)
                else (escaped ==> v[0] as nat < 0x80) && Stable(v[1..], escaped))
  }

  lemma {:induction false} MangledGrows(v: Text, escaped: bool)
    ensures |Mangled(v, escaped)| >= |v|
  {
    if v != "" {
      MangledGrows(v[1..], escaped || NeedsEscape(v[0]));
    }
  }

  /** Nothing is mangled exactly when the string is stable. */
  lemma {:induction false} MangledIsIdentity(v: Text, escaped: bool)
    ensures Mangled(v, escaped) == v <==> Stable(v, escaped)
    ensures !Stable(v, escaped) ==> |Mangled(v, escaped)| > |v|
  {
    if v != "" {
      MangledIsIdentity(v[1..], escaped || NeedsEscape(v[0]));
      MangledGrows(v[1..], escaped || NeedsEscape(v[0]));
      assert v == [v[0]] + v[1..];
      assert Mangled(v, escaped)[1..] == Mangled(v[1..], escaped || NeedsEscape(v[0])) || (escaped && v[0] as nat >= 0x80);
    }
  }

  /** The documented domain: ASCII, with no control characters but newline, return and tab. */
  predicate PlainAscii(v: Text) {
    forall i :: 0 <= i < |v| ==> v[i] as nat < 0x80 && (v[i] as nat >= 0x20 || NeedsEscape(v[i]))
  }

  lemma {:induction false} AsciiIsStable(v: Text, escaped: bool)
    requires PlainAscii(v)
    ensures Clean(v) && Stable(v, escaped) && Mangled(v, escaped) == v
  {
    MangledIsIdentity(v, escaped);
    if v != "" {
      AsciiIsStable(v[1..], escaped || NeedsEscape(v[0]));
    }
  }

  // ----- field names and other texts without anything to escape -----

  predicate Plain(v: Text) {
    forall i :: 0 <= i < |v| ==> 0x20 <= v[i] as nat < 0x80 && v[i] != '"' && v[i] != '\\'
  }

  lemma {:induction false} PlainEscapes(v: Text)
    requires Plain(v)
    ensures Escaped(v) == v
  {
    if v != "" {
      PlainEscapes(v[1..]);
      assert v == [v[0]] + v[1..];
    }
  }

  lemma PlainRoundTrip(v: Text, rest: Text)
    requires Plain(v)
    ensures StringAt("\"" + v + "\"" + rest) == Parsed((v, rest))
  {
    hide StringAt;
    PlainEscapes(v);
    AsciiIsStable(v, false);
    StringRoundTrip(v, rest);
  }

  // ----- hex -----

  lemma NibbleRoundTrip(n: nat)
    requires n < 16
    ensures HexNibble(HexDigit(n)) == Parsed(n)
    ensures 0x20 <= HexDigit(n) as nat < 0x80 && HexDigit(n) != '"' && HexDigit(n) != '\\'
  {
  }

  lemma {:induction false} HexRoundTrip(bytes: seq<Byte>)
    ensures ParseHex(Hex(bytes)) == Parsed(bytes)
    ensures |Hex(bytes)| == 2 * |bytes| && Plain(Hex(bytes))
  {
    hide HexNibble, HexDigit;
    if bytes != [] {
      HexRoundTrip(bytes[1..]);
      NibbleRoundTrip(bytes[0] / 16);
      NibbleRoundTrip(bytes[0] % 16);
      var h := Hex(bytes);
      assert h[0] == HexDigit(bytes[0] / 16) && h[1] == HexDigit(bytes[0] % 16) && h[2..] == Hex(bytes[1..]);
      assert forall i :: 2 <= i < |h| ==> h[i] == h[2..][i - 2];
      assert [16 * (bytes[0] / 16) + bytes[0] % 16] + bytes[1..] == bytes;
    }
  }

  /** Two lower-case digits a byte. */
  lemma {:induction false} HexMeaning(bytes: seq<Byte>, i: nat)
    requires i < |bytes|
    ensures |Hex(bytes)| == 2 * |bytes|
    ensures var d := "0123456789abcdef"; Hex(bytes)[2 * i] == d[bytes[i] / 16] && Hex(bytes)[2 * i + 1] == d[bytes[i] % 16]
    decreases |bytes|
  {
    hide HexDigit;
    HexRoundTrip(bytes);
    if i == 0 {
      LowerCase(bytes[0] / 16);
      LowerCase(bytes[0] % 16);
    } else {
      HexMeaning(bytes[1..], i - 1);
      assert Hex(bytes)[2..] == Hex(bytes[1..]);
      assert Hex(bytes)[2 * i] == Hex(bytes)[2..][2 * (i - 1)] && Hex(bytes)[2 * i + 1] == Hex(bytes)[2..][2 * (i - 1) + 1];
    }
  }

  lemma LowerCase(n: nat)
    requires n < 16
    ensures HexDigit(n) == "0123456789abcdef"[n]
  {
  }

  /** A control character without a letter of its own is printed as the four hex digits of its code. */
  lemma ControlEscape(c: char)
    requires c as nat < 0x20 && !NeedsEscape(c)
    ensures Escaped([c]) == "\\u" + Hex([0, c as nat])
  {
    hide HexDigit;
    LowerCase(0);
    assert [c][1..] == "" && Escaped("") == "";
    var tail: seq<Byte> := [c as nat];
    assert ([0] + tail)[1..] == tail && [0] + tail == [0, c as nat] && tail[1..] == [];
    assert Hex(tail) == [HexDigit(c as nat / 16), HexDigit(c as nat % 16)] + "";
    assert Hex([0, c as nat]) == [HexDigit(0), HexDigit(0)] + Hex(tail);
  }

  // ----- integers -----

  /** No leading zeros, and a minus sign only below zero. */
  lemma {:induction false} DecimalIsShortest(n: nat)
    ensures DecimalNat(n) != "" && (DecimalNat(n)[0] == '0' ==> n == 0)
    ensures n == 0 ==> DecimalNat(n) == "0"
  {
    if n >= 10 {
      DecimalIsShortest(n / 10);
    }
  }

  lemma {:induction false} DecimalRoundTrip(n: nat)
    ensures DecimalNat(n) != "" && DigitsValue(DecimalNat(n)) == n
    ensures forall i :: 0 <= i < |DecimalNat(n)| ==> IsDigit(DecimalNat(n)[i])
  {
    var d := DecimalNat(n);
    if n >= 10 {
      DecimalRoundTrip(n / 10);
    }
    assert d[|d| - 1] == '0' + (n % 10) as char;
    assert d[..|d| - 1] == if n < 10 then "" else DecimalNat(n / 10);
  }

  /** All the digits are taken, and no more. */
  lemma {:induction false} DigitsOf(d: Text, rest: Text)
    requires forall i :: 0 <= i < |d| ==> IsDigit(d[i])
    requires rest != "" && !IsDigit(rest[0])
    ensures Digits(d + rest) == d
    decreases |d|
  {
    if d == "" {
      assert d + rest == rest;
    } else {
      assert (d + rest)[1..] == d[1..] + rest;
      DigitsOf(d[1..], rest);
    }
  }

  lemma NoSpace(s: Text)
    requires s != "" && (s[0] == '-' || IsDigit(s[0]))
    ensures SkipSpace(s) == s
  {
  }

  lemma DigitsAtRoundTrip(negative: bool, n: nat, rest: Text)
    requires n < 0x8000_0000_0000_0000 || (negative && n == 0x8000_0000_0000_0000)
    requires rest != "" && !IsDigit(rest[0])
    ensures DigitsAt(negative, DecimalNat(n) + rest) == Parsed((Signed(negative, n), rest))
  {
    hide DecimalNat, DigitsValue, Digits;
    var d := DecimalNat(n);
    DecimalRoundTrip(n);
    DigitsOf(d, rest);
    assert (d + rest)[|d|..] == rest;
  }

  lemma IntegerRoundTrip(v: int, rest: Text)
    requires -0x8000_0000_0000_0000 <= v < 0x8000_0000_0000_0000
    requires rest != "" && !IsDigit(rest[0])
    ensures IntegerAt(Decimal(v) + rest) == Parsed((v, rest))
  {
    hide DecimalNat, DigitsAt, SkipSpace;
    var s := Decimal(v) + rest;
    if v < 0 {
      NoSpace(s);
      assert s[1..] == DecimalNat(-v) + rest;
      DigitsAtRoundTrip(true, -v, rest);
    } else {
      DecimalRoundTrip(v);
      assert s[0] == DecimalNat(v)[0];
      NoSpace(s);
      DigitsAtRoundTrip(false, v, rest);
    }
  }
}
