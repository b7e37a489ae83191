/** The recursive-descent reader of `extension.rs` over a position, and its printers. */
module JsonParser {
  import opened Bits
  import opened JsonText
  import opened Extension

  function Front<T>(p: Parsed<(T, Text)>): Parsed<T> {
    var (v, _) :- p;
    Parsed(v)
  }

  class Parser {
    const s: Text
    var pos: nat

    ghost predicate Valid()
      reads this
    {
      pos <= |s|
    }

    ghost function Rest(): Text
      requires Valid()
      reads this
    {
      s[pos..]
    }

    constructor (s: Text)
      ensures this.s == s && Valid() && Rest() == s
    {
      this.s := s;
      pos := 0;
    }

    method SkipWs()
      requires Valid()
      modifies this
      ensures Valid() && Rest() == SkipSpace(old(Rest()))
    {
      while pos < |s| && IsSpace(s[pos])
        invariant Valid() && SkipSpace(Rest()) == SkipSpace(old(Rest()))
      {
        assert Rest()[1..] == s[pos + 1..];
        pos := pos + 1;
      }
    }

    method ExpectChar(c: char) returns (r: Parsed<()>)
      requires Valid()
      modifies this
      ensures Valid()
      ensures r == if Expect(old(Rest()), c).Parsed? then Parsed(()) else Malformed
      ensures r.Parsed? ==> Rest() == Expect(old(Rest()), c).value
    {
      hide SkipSpace;
      SkipWs();
      if pos >= |s| || s[pos] != c {
        return Malformed;
      }
      assert Rest()[1..] == s[pos + 1..];
      pos := pos + 1;
      return Parsed(());
    }

    /** `try_obj_close` and `try_arr_close`. */
    method TryCloseWith(c: char) returns (closed: bool)
      requires Valid()
      modifies this
      ensures Valid()
      ensures (closed, Rest()) == TryClose(old(Rest()), c)
    {
      hide SkipSpace;
      SkipWs();
      if pos < |s| && s[pos] == c {
        assert Rest()[1..] == s[pos + 1..];
        pos := pos + 1;
        return true;
      }
      return false;
    }

    method ConsumeCommaOrClose()
      requires Valid()
      modifies this
      ensures Valid() && Rest() == AfterComma(old(Rest()))
    {
      hide SkipSpace;
      SkipWs();
      if pos < |s| && s[pos] == ',' {
        assert Rest()[1..] == s[pos + 1..];
        pos := pos + 1;
      }
    }

    /** The escape after a backslash. */
    method ReadEscape() returns (r: Parsed<char>)
      requires Valid()
      modifies this
      ensures Valid() && r == Front(Unescape(old(Rest())))
      ensures r.Parsed? ==> Rest() == Unescape(old(Rest())).value.1
    {
      if pos >= |s| {
        return Malformed;
      }
      assert Rest()[1..] == s[pos + 1..] && Rest()[0] == s[pos];
      var c := s[pos];
      var out;
      match c {
        case '"' => out := '"';
        case '\\' => out := '\\';
        case '/' => out := '/';
        case 'n' => out := '\n';
        case 'r' => out := '\r';
        case 't' => out := '\t';
        case _ => return Malformed;
      }
      pos := pos + 1;
      return Parsed(out);
    }

    /** `string`: until the first escape nothing is copied, the bytes from `start` on stand for the
        string; `out` being empty tells that no escape was seen. */
    method ReadString() returns (r: Parsed<Text>)
      requires Valid()
      modifies this
      ensures Valid() && r == Front(StringAt(old(Rest())))
      ensures r.Parsed? ==> Rest() == StringAt(old(Rest())).value.1
    {
      hide SkipSpace, Expect, StringBody;
      SkipTwice(Rest(), '"');
      SkipWs();
      var open := ExpectChar('"');
      if !open.Parsed? {
        return Malformed;
      }
      r := ReadBody();
    }

    /** Everything after the opening quote. */
    method ReadBody() returns (r: Parsed<Text>)
      requires Valid()
      modifies this
      ensures Valid() && r == Front(StringBody("", false, old(Rest())))
      ensures r.Parsed? ==> Rest() == StringBody("", false, old(Rest())).value.1
    {
      hide PushAsChar, Unescape, StringBody;
      ghost var body := Rest();
      var start := pos;
      var out := "";
      assert s[start..pos] == "";
      while pos < |s|
        invariant Valid() && start <= pos
        invariant StringBody("", false, body)
               == StringBody(if out == "" then s[start..pos] else out, out != "", Rest())
        decreases |s| - pos
      {
        ghost var sofar := if out == "" then s[start..pos] else out;
        BodyUnfold(sofar, out != "", Rest());
        assert Rest()[1..] == s[pos + 1..] && Rest()[0] == s[pos];
        var c := s[pos];
        if c == '"' {
          if out == "" {
            var raw := s[start..pos];
            pos := pos + 1;
            return Parsed(raw);
          }
          pos := pos + 1;
          return Parsed(out);
        }
        if c == '\\' {
          if out == "" {
            out := s[start..pos];
          }
          pos := pos + 1;
          var e :- ReadEscape();
          out := out + [e];
          continue;
        }
        if out != "" {
          out := out + PushAsChar(c);
        } else {
          assert s[start..pos] + [c] == s[start..pos + 1];
        }
        pos := pos + 1;
      }
      return Malformed;
    }

    /** `i64`. */
    method ReadI64() returns (r: Parsed<Int64>)
      requires Valid()
      modifies this
      ensures Valid() && r == Front(IntegerAt(old(Rest())))
      ensures r.Parsed? ==> Rest() == IntegerAt(old(Rest())).value.1
    {
      hide SkipSpace, Digits, ParseI64;
      SkipWs();
      var negative := false;
      ghost var t := Rest();
      if pos < |s| && s[pos] == '-' {
        assert Rest()[1..] == s[pos + 1..];
        negative := true;
        pos := pos + 1;
      }
      var digitStart := pos;
      TakeDigits();
      assert s[digitStart..][|s[digitStart..pos]|..] == s[pos..];
      var v :- ParseI64(negative, s[digitStart..pos]);
      return Parsed(v);
    }

    method TakeDigits()
      requires Valid()
      modifies this
      ensures Valid() && old(pos) <= pos && s[old(pos)..pos] == Digits(old(Rest()))
    {
      hide Digits;
      ghost var start := pos;
      assert s[start..start] == "";
      while pos < |s| && IsDigit(s[pos])
        invariant Valid() && start <= pos && Digits(s[start..]) == s[start..pos] + Digits(s[pos..])
      {
        DigitsStep(s, start, pos);
        pos := pos + 1;
      }
      NoDigits(s[pos..]);
    }

    /** `skip_value`: each turn of its loops leaves less text. */
    method SkipAny() returns (r: Parsed<()>)
      requires Valid()
      modifies this
      ensures Valid()
      ensures r == if SkipValue(old(Rest())).Parsed? then Parsed(()) else Malformed
      ensures r.Parsed? ==> Rest() == SkipValue(old(Rest())).value
      decreases |s| - pos, 1
    {
      hide SkipSpace, SkipValue, SkipScalar, SkipMembers, SkipElements;
      ghost var start := Rest();
      SkipUnfold(start);
      SkipWs();
      if pos >= |s| {
        return Malformed;
      }
      assert Rest()[1..] == s[pos + 1..];
      var c := s[pos];
      if c == '{' {
        OpenStays(Rest(), '{');
        var open := ExpectChar('{');
        r := SkipObject();
      } else if c == '[' {
        OpenStays(Rest(), '[');
        var open := ExpectChar('[');
        r := SkipArray();
      } else {
        r := SkipPlain();
      }
    }

    method SkipObject() returns (r: Parsed<()>)
      requires Valid()
      modifies this
      ensures Valid()
      ensures r == if SkipMembers(old(Rest())).Parsed? then Parsed(()) else Malformed
      ensures r.Parsed? ==> Rest() == SkipMembers(old(Rest())).value
      decreases |s| - pos, 2
    {
      hide SkipSpace, SkipValue, SkipMembers, TryClose, StringAt, Expect, AfterComma;
      ghost var whole := SkipMembers(Rest());
      ghost var first := pos;
      while true
        invariant Valid() && first <= pos && whole == SkipMembers(Rest())
        decreases |s| - pos
      {
        MembersUnfold(Rest());
        var closed := TryCloseWith('}');
        if closed {
          return Parsed(());
        }
        var key := ReadString();
        if !key.Parsed? {
          return Malformed;
        }
        var colon := ExpectChar(':');
        if !colon.Parsed? {
          return Malformed;
        }
        var value := SkipAny();
        if !value.Parsed? {
          return Malformed;
        }
        ConsumeCommaOrClose();
      }
    }

    method SkipArray() returns (r: Parsed<()>)
      requires Valid()
      modifies this
      ensures Valid()
      ensures r == if SkipElements(old(Rest())).Parsed? then Parsed(()) else Malformed
      ensures r.Parsed? ==> Rest() == SkipElements(old(Rest())).value
      decreases |s| - pos, 2
    {
      hide SkipSpace, SkipValue, SkipElements, TryClose, AfterComma;
      ghost var whole := SkipElements(Rest());
      ghost var first := pos;
      while true
        invariant Valid() && first <= pos && whole == SkipElements(Rest())
        decreases |s| - pos
      {
        ElementsUnfold(Rest());
        var closed := TryCloseWith(']');
        if closed {
          return Parsed(());
        }
        var value := SkipAny();
        if !value.Parsed? {
          return Malformed;
        }
        ConsumeCommaOrClose();
      }
    }

    method SkipPlain() returns (r: Parsed<()>)
      requires Valid() && pos < |s|
      modifies this
      ensures Valid()
      ensures r == if SkipScalar(old(Rest())).Parsed? then Parsed(()) else Malformed
      ensures r.Parsed? ==> Rest() == SkipScalar(old(Rest())).value
    {
      hide StringAt, IntegerAt;
      var c := s[pos];
      if c == '"' {
        var text := ReadString();
        return if text.Parsed? then Parsed(()) else Malformed;
      } else if c == 't' {
        r := SkipLiteral("true");
      } else if c == 'f' {
        r := SkipLiteral("false");
      } else if c == 'n' {
        r := SkipLiteral("null");
      } else if c == '-' || IsDigit(c) {
        var number := ReadI64();
        return if number.Parsed? then Parsed(()) else Malformed;
      } else {
        return Malformed;
      }
    }

    method SkipLiteral(word: Text) returns (r: Parsed<()>)
      requires Valid() && word != ""
      modifies this
      ensures Valid()
      ensures r == if SkipWord(old(Rest()), word).Parsed? then Parsed(()) else Malformed
      ensures r.Parsed? ==> Rest() == SkipWord(old(Rest()), word).value
    {
      PrefixAt(s, pos, word);
      if pos + |word| <= |s| && s[pos..pos + |word|] == word {
        assert Rest()[|word|..] == s[pos + |word|..];
        pos := pos + |word|;
        return Parsed(());
      }
      return Malformed;
    }
  }

  /** `s.get(pos..pos + len) == Some(word)`. */
  lemma PrefixAt(s: Text, pos: nat, word: Text)
    requires pos <= |s|
    ensures pos + |word| <= |s| && s[pos..pos + |word|] == word <==> word <= s[pos..]
  {
    if pos + |word| <= |s| {
      assert s[pos..pos + |word|] == s[pos..][..|word|];
    }
  }

  lemma SkipTwice(s: Text, c: char)
    ensures SkipSpace(SkipSpace(s)) == SkipSpace(s) && Expect(SkipSpace(s), c) == Expect(s, c)
  {
  }

  lemma DigitsStep(s: Text, start: nat, pos: nat)
    requires start <= pos < |s| && IsDigit(s[pos])
    ensures s[start..pos] + Digits(s[pos..]) == s[start..pos + 1] + Digits(s[pos + 1..])
  {
    assert s[pos..][1..] == s[pos + 1..] && s[pos..][0] == s[pos];
    hide Digits;
    var a, d := s[start..pos], Digits(s[pos + 1..]);
    assert s[start..pos + 1] == a + [s[pos]];
    assert a + ([s[pos]] + d) == a + [s[pos]] + d;
  }

  lemma NoDigits(s: Text)
    requires s == "" || !IsDigit(s[0])
    ensures Digits(s) == ""
  {
  }

  lemma BodyUnfold(out: Text, escaped: bool, s: Text)
    ensures StringBody(out, escaped, s)
         == if s == "" then Malformed
            else if s[0] == '"' then Parsed((out, s[1..]))
            else if s[0] == '\\' then var (c, rest) :- Unescape(s[1..]); StringBody(out + [c], true, rest)
            else StringBody(out + (if escaped then PushAsChar(s[0]) else [s[0]]), escaped, s[1..])
  {
    hide Unescape, PushAsChar;
  }

  lemma SkipUnfold(s: Text)
    ensures var t := SkipSpace(s);
            SkipValue(s) == if t == "" then Malformed
                            else if t[0] == '{' then SkipMembers(t[1..])
                            else if t[0] == '[' then SkipElements(t[1..])
                            else SkipScalar(t)
    ensures SkipSpace(SkipSpace(s)) == SkipSpace(s)
  {
    hide SkipScalar, SkipMembers, SkipElements;
  }

  lemma OpenStays(s: Text, c: char)
    requires s != "" && s[0] == c && !IsSpace(c)
    ensures Expect(s, c) == Parsed(s[1..])
  {
  }

  lemma MembersUnfold(s: Text)
    ensures var (closed, t) := TryClose(s, '}');
            SkipMembers(s) == if closed then Parsed(t)
                              else var (_, a) :- StringAt(t);
                                   var b :- Expect(a, ':');
                                   var c :- SkipValue(b);
                                   SkipMembers(AfterComma(c))
    ensures |TryClose(s, '}').1| <= |s|
  {
    hide TryClose, StringAt, Expect, SkipValue, AfterComma;
  }

  lemma ElementsUnfold(s: Text)
    ensures var (closed, t) := TryClose(s, ']');
            SkipElements(s) == if closed then Parsed(t)
                               else var c :- SkipValue(t); SkipElements(AfterComma(c))
    ensures |TryClose(s, ']').1| <= |s|
  {
    hide TryClose, SkipValue, AfterComma;
  }

  // ----- the readers of the extension -----

  /** `parse_hex`, two characters at a time. */
  method ParseHexText(s: Text) returns (r: Parsed<seq<Byte>>)
    ensures r == ParseHex(s)
  {
    hide HexNibble;
    if |s| % 2 != 0 {
      return Malformed;
    }
    var out: seq<Byte> := [];
    var i := 0;
    assert s[0..] == s;
    HexNothing(ParseHexPairs(s));
    while i < |s|
      invariant i <= |s| && i % 2 == 0
      invariant ParseHexPairs(s) == HexAfter(out, ParseHexPairs(s[i..]))
    {
      HexStep(out, s[i..]);
      assert s[i..][0] == s[i] && s[i..][1] == s[i + 1] && s[i..][2..] == s[i + 2..];
      HexNibbleBound(s[i]);
      HexNibbleBound(s[i + 1]);
      var hi :- HexNibble(s[i]);
      var lo :- HexNibble(s[i + 1]);
      out := out + [16 * hi + lo];
      i := i + 2;
    }
    assert s[i..] == "" && out + [] == out;
    return Parsed(out);
  }

  function HexAfter(done: seq<Byte>, rest: Parsed<seq<Byte>>): Parsed<seq<Byte>> {
    var more :- rest;
    Parsed(done + more)
  }

  lemma HexNothing(rest: Parsed<seq<Byte>>)
    ensures HexAfter([], rest) == rest
  {
    if rest.Parsed? {
      assert [] + rest.value == rest.value;
    }
  }

  lemma HexAssociate(done: seq<Byte>, b: Byte, more: seq<Byte>)
    ensures done + ([b] + more) == done + [b] + more
  {
  }

  lemma HexStep(done: seq<Byte>, s: Text)
    requires |s| % 2 == 0 && s != ""
    ensures HexPair(s[0], s[1]).Parsed? ==>
              HexAfter(done, ParseHexPairs(s)) == HexAfter(done + [HexPair(s[0], s[1]).value], ParseHexPairs(s[2..]))
    ensures !HexPair(s[0], s[1]).Parsed? ==> HexAfter(done, ParseHexPairs(s)) == Malformed
  {
    hide HexPair;
    var rest := ParseHexPairs(s[2..]);
    if HexPair(s[0], s[1]).Parsed? && rest.Parsed? {
      HexAssociate(done, HexPair(s[0], s[1]).value, rest.value);
    }
  }

  /** The closing brace, or a member's name and colon. */
  method ReadName(p: Parser) returns (r: Parsed<Option<Text>>)
    requires p.Valid()
    modifies p
    ensures p.Valid() && r == Front(NameAt(old(p.Rest())))
    ensures r.Parsed? ==> p.Rest() == NameAt(old(p.Rest())).value.1
  {
    hide TryClose, StringAt, Expect;
    var closed := p.TryCloseWith('}');
    if closed {
      return Parsed(None);
    }
    var key := p.ReadString();
    if !key.Parsed? {
      return Malformed;
    }
    var colon := p.ExpectChar(':');
    if !colon.Parsed? {
      return Malformed;
    }
    return Parsed(Some(key.value));
  }

  method ReadHex(p: Parser) returns (r: Parsed<seq<Byte>>)
    requires p.Valid()
    modifies p
    ensures p.Valid()
    ensures r == var hex := StringAt(old(p.Rest())); if hex.Parsed? then ParseHex(hex.value.0) else Malformed
    ensures r.Parsed? ==> p.Rest() == StringAt(old(p.Rest())).value.1
  {
    hide StringAt, ParseHex;
    var hex := p.ReadString();
    if !hex.Parsed? {
      return Malformed;
    }
    r := ParseHexText(hex.value);
  }

  method ReadKeyField(p: Parser, key: Text, st: KeyFields) returns (r: Parsed<KeyFields>)
    requires p.Valid()
    modifies p
    ensures p.Valid() && r == Front(KeyField(key, st, old(p.Rest())))
    ensures r.Parsed? ==> p.Rest() == KeyField(key, st, old(p.Rest())).value.1
  {
    hide StringAt, IntegerAt, ParseHex, SkipValue;
    if key == "type" {
      var v := p.ReadString();
      return if v.Parsed? then Parsed(st.(typ := Some(v.value))) else Malformed;
    } else if key == "value" {
      var v := p.ReadI64();
      return if v.Parsed? then Parsed(st.(number := Some(v.value))) else Malformed;
    } else if key == "value_hex" {
      var v := ReadHex(p);
      return if v.Parsed? then Parsed(st.(blob := Some(v.value))) else Malformed;
    } else {
      var v := p.SkipAny();
      return if v.Parsed? then Parsed(st) else Malformed;
    }
  }

  lemma KeyMembersUnfold(st: KeyFields, s: Text)
    ensures KeyMembers(st, s)
         == var (name, a) :- NameAt(s);
            if name.None? then Parsed((st, a))
            else var (next, b) :- KeyField(name.value, st, a); KeyMembers(next, AfterComma(b))
  {
    hide NameAt, KeyField, AfterComma;
  }

  /** `parse_summary_key`. */
  method ParseSummaryKey(p: Parser) returns (r: Parsed<SummaryKey>)
    requires p.Valid()
    modifies p
    ensures p.Valid() && r == Front(KeyAt(old(p.Rest())))
    ensures r.Parsed? ==> p.Rest() == KeyAt(old(p.Rest())).value.1
  {
    hide Expect, NameAt, KeyField, KeyMembers, AfterComma, FinishKey;
    var open := p.ExpectChar('{');
    if !open.Parsed? {
      return Malformed;
    }
    var st := KeyFields(None, None, None);
    ghost var whole := KeyMembers(st, p.Rest());
    while true
      invariant p.Valid() && whole == KeyMembers(st, p.Rest())
      decreases |p.Rest()|
    {
      KeyMembersUnfold(st, p.Rest());
      var name := ReadName(p);
      if !name.Parsed? {
        return Malformed;
      }
      if name.value.None? {
        r := FinishKey(st);
        return;
      }
      var next := ReadKeyField(p, name.value.value, st);
      if !next.Parsed? {
        return Malformed;
      }
      st := next.value;
      p.ConsumeCommaOrClose();
    }
  }

  method ReadSummaryField(p: Parser, key: Text, st: SummaryFields) returns (r: Parsed<SummaryFields>)
    requires p.Valid()
    modifies p
    ensures p.Valid() && r == Front(SummaryField(key, st, old(p.Rest())))
    ensures r.Parsed? ==> p.Rest() == SummaryField(key, st, old(p.Rest())).value.1
  {
    hide StringAt, KeyAt, ParseHex, SkipValue;
    if key == "name" {
      var v := p.ReadString();
      return if v.Parsed? then Parsed(st.(name := Some(v.value))) else Malformed;
    } else if key == "min_key" {
      var v := ParseSummaryKey(p);
      return if v.Parsed? then Parsed(st.(min := Some(v.value))) else Malformed;
    } else if key == "max_key" {
      var v := ParseSummaryKey(p);
      return if v.Parsed? then Parsed(st.(max := Some(v.value))) else Malformed;
    } else if key == "dataset_bloom_hex" {
      var v := ReadHex(p);
      return if v.Parsed? then Parsed(st.(bloom := Some(v.value))) else Malformed;
    } else {
      var v := p.SkipAny();
      return if v.Parsed? then Parsed(st) else Malformed;
    }
  }

  lemma SummaryMembersUnfold(st: SummaryFields, s: Text)
    ensures SummaryMembers(st, s)
         == var (name, a) :- NameAt(s);
            if name.None? then Parsed((st, a))
            else var (next, b) :- SummaryField(name.value, st, a); SummaryMembers(next, AfterComma(b))
  {
    hide NameAt, SummaryField, AfterComma;
  }

  /** `parse_one_summary`. */
  method ParseOneSummary(p: Parser) returns (r: Parsed<IndexSummary>)
    requires p.Valid()
    modifies p
    ensures p.Valid() && r == Front(SummaryAt(old(p.Rest())))
    ensures r.Parsed? ==> p.Rest() == SummaryAt(old(p.Rest())).value.1
  {
    hide Expect, NameAt, SummaryField, SummaryMembers, AfterComma;
    var open := p.ExpectChar('{');
    if !open.Parsed? {
      return Malformed;
    }
    var st := SummaryFields(None, None, None, None);
    ghost var whole := SummaryMembers(st, p.Rest());
    while true
      invariant p.Valid() && whole == SummaryMembers(st, p.Rest())
      decreases |p.Rest()|
    {
      SummaryMembersUnfold(st, p.Rest());
      var name := ReadName(p);
      if !name.Parsed? {
        return Malformed;
      }
      if name.value.None? {
        if st.name.None? {
          return Malformed;
        }
        return Parsed(IndexSummary(st.name.value, st.min, st.max, st.bloom));
      }
      var next := ReadSummaryField(p, name.value.value, st);
      if !next.Parsed? {
        return Malformed;
      }
      st := next.value;
      p.ConsumeCommaOrClose();
    }
  }

  lemma ListUnfold(out: seq<IndexSummary>, s: Text)
    ensures var (closed, t) := TryClose(s, ']');
            Elements(out, s) == if closed then Parsed((out, t))
                                else var (one, rest) :- SummaryAt(t); Elements(out + [one], AfterComma(rest))
    ensures |TryClose(s, ']').1| <= |s|
  {
    hide TryClose, SummaryAt, AfterComma;
  }

  /** `parse_summaries`. */
  method ParseSummaries(p: Parser) returns (r: Parsed<seq<IndexSummary>>)
    requires p.Valid()
    modifies p
    ensures p.Valid() && r == Front(SummariesAt(old(p.Rest())))
    ensures r.Parsed? ==> p.Rest() == SummariesAt(old(p.Rest())).value.1
  {
    hide Expect, TryClose, SummaryAt, Elements, AfterComma;
    var open := p.ExpectChar('[');
    if !open.Parsed? {
      return Malformed;
    }
    var out := [];
    ghost var whole := Elements([], p.Rest());
    while true
      invariant p.Valid() && whole == Elements(out, p.Rest())
      decreases |p.Rest()|
    {
      ListUnfold(out, p.Rest());
      var closed := p.TryCloseWith(']');
      if closed {
        return Parsed(out);
      }
      var one := ParseOneSummary(p);
      if !one.Parsed? {
        return Malformed;
      }
      out := out + [one.value];
      p.ConsumeCommaOrClose();
    }
  }

  method ReadTopField(p: Parser, key: Text, st: TopFields) returns (r: Parsed<TopFields>)
    requires p.Valid()
    modifies p
    ensures p.Valid() && r == Front(TopField(key, st, old(p.Rest())))
    ensures r.Parsed? ==> p.Rest() == TopField(key, st, old(p.Rest())).value.1
  {
    hide StringAt, SummariesAt, SkipValue;
    if key == "version" {
      var v := p.ReadString();
      return if v.Parsed? then Parsed(st.(version := Some(v.value))) else Malformed;
    } else if key == "sidecar_relative_path" {
      var v := p.ReadString();
      return if v.Parsed? then Parsed(st.(path := Some(v.value))) else Malformed;
    } else if key == "summaries" {
      var v := ParseSummaries(p);
      return if v.Parsed? then Parsed(st.(summaries := Some(v.value))) else Malformed;
    } else {
      var v := p.SkipAny();
      return if v.Parsed? then Parsed(st) else Malformed;
    }
  }

  lemma TopMembersUnfold(st: TopFields, s: Text)
    ensures TopMembers(st, s)
         == var (name, a) :- NameAt(s);
            if name.None? then Parsed((st, a))
            else var (next, b) :- TopField(name.value, st, a); TopMembers(next, AfterComma(b))
  {
    hide NameAt, TopField, AfterComma;
  }

  /** `from_json`. */
  method ReadExtension(s: Text) returns (r: Parsed<DataFileExtension>)
    ensures r == FromJson(s)
  {
    hide Expect, NameAt, TopField, TopMembers, AfterComma, FinishTop;
    var p := new Parser(s);
    var open := p.ExpectChar('{');
    if !open.Parsed? {
      return Malformed;
    }
    var st := TopFields(None, None, None);
    ghost var whole := TopMembers(st, p.Rest());
    while true
      invariant p.Valid() && fresh(p) && whole == TopMembers(st, p.Rest())
      decreases |p.Rest()|
    {
      TopMembersUnfold(st, p.Rest());
      var name := ReadName(p);
      if !name.Parsed? {
        return Malformed;
      }
      if name.value.None? {
        r := FinishTop(st);
        return;
      }
      var next := ReadTopField(p, name.value.value, st);
      if !next.Parsed? {
        return Malformed;
      }
      st := next.value;
      p.ConsumeCommaOrClose();
    }
  }

  // ----- the printers -----

  /** `write_json_string`. */
  method WriteJsonString(s0: Text, v: Text) returns (s: Text)
    ensures s == s0 + JsonString(v)
  {
    hide EscapeChar;
    s := s0 + "\"";
    assert v[0..] == v;
    for i := 0 to |v|
      invariant s + Escaped(v[i..]) == s0 + "\"" + Escaped(v)
    {
      assert v[i..][0] == v[i] && v[i..][1..] == v[i + 1..];
      s := s + EscapeChar(v[i]);
    }
    assert Escaped(v[|v|..]) == "";
    s := s + "\"";
    assert s0 + "\"" + Escaped(v) + "\"" == s0 + ("\"" + Escaped(v) + "\"");
  }

  /** `write_hex`. */
  method WriteHex(s0: Text, bytes: seq<Byte>) returns (s: Text)
    ensures s == s0 + Hex(bytes)
  {
    hide HexDigit;
    s := s0;
    assert bytes[0..] == bytes;
    for i := 0 to |bytes|
      invariant s + Hex(bytes[i..]) == s0 + Hex(bytes)
    {
      assert bytes[i..][0] == bytes[i] && bytes[i..][1..] == bytes[i + 1..];
      s := s + [HexDigit(bytes[i] / 16), HexDigit(bytes[i] % 16)];
    }
    assert Hex(bytes[|bytes|..]) == "";
  }

  /** `write_summary_key`. */
  method WriteSummaryKey(s0: Text, k: SummaryKey) returns (s: Text)
    ensures s == s0 + KeyJson(k)
  {
    hide Hex, Decimal;
    match k
    case I64(v) =>
      s := s0 + ("{\"type\":\"i64\",\"value\":" + Decimal(v) + "}");
    case I32(v) =>
      s := s0 + ("{\"type\":\"i32\",\"value\":" + Decimal(v) + "}");
    case Bytes(b) =>
      s := s0 + "{\"type\":\"bytes\",\"value_hex\":\"";
      s := WriteHex(s, b);
      s := s + "\"}";
      AppendThree(s0, "{\"type\":\"bytes\",\"value_hex\":\"", Hex(b), "\"}");
  }

  lemma AppendThree(s: Text, a: Text, b: Text, c: Text)
    ensures s + a + b + c == s + (a + b + c)
    ensures s + a + b == s + (a + b)
  {
  }

  /** `write_summary`. */
  method WriteSummary(s0: Text, summary: IndexSummary) returns (s: Text)
    ensures s == s0 + SummaryJson(summary)
  {
    hide JsonString, KeyJson, Hex;
    s := s0 + "{\"name\":";
    s := WriteJsonString(s, summary.name);
    s := WriteBound(s, ",\"min_key\":", summary.min);
    s := WriteBound(s, ",\"max_key\":", summary.max);
    if summary.bloom.Some? {
      s := s + ",\"dataset_bloom_hex\":\"";
      s := WriteHex(s, summary.bloom.value);
      s := s + "\"";
    }
    s := s + "}";
    SummaryPieces(s0, summary);
  }

  method WriteBound(s0: Text, prefix: Text, k: Option<SummaryKey>) returns (s: Text)
    ensures s == s0 + OptionalKeyJson(prefix, k)
  {
    hide KeyJson;
    s := s0;
    if k.Some? {
      s := s + prefix;
      s := WriteSummaryKey(s, k.value);
      AppendThree(s0, prefix, KeyJson(k.value), "");
    } else {
      assert s0 + "" == s0;
    }
  }

  lemma SummaryPieces(s0: Text, summary: IndexSummary)
    ensures s0 + "{\"name\":" + JsonString(summary.name) + OptionalKeyJson(",\"min_key\":", summary.min)
            + OptionalKeyJson(",\"max_key\":", summary.max)
            + (if summary.bloom.Some? then ",\"dataset_bloom_hex\":\"" else "")
            + (if summary.bloom.Some? then Hex(summary.bloom.value) else "")
            + (if summary.bloom.Some? then "\"" else "") + "}"
         == s0 + SummaryJson(summary)
  {
    hide JsonString, OptionalKeyJson, Hex;
    if summary.bloom.Some? {
      AppendThree(s0 + "{\"name\":" + JsonString(summary.name) + OptionalKeyJson(",\"min_key\":", summary.min)
                  + OptionalKeyJson(",\"max_key\":", summary.max), ",\"dataset_bloom_hex\":\"", Hex(summary.bloom.value), "\"");
    }
    FivePieces(s0, "{\"name\":", JsonString(summary.name), OptionalKeyJson(",\"min_key\":", summary.min),
      OptionalKeyJson(",\"max_key\":", summary.max), OptionalBloomJson(summary.bloom), "}");
  }

  lemma FivePieces(s: Text, a: Text, b: Text, c: Text, d: Text, e: Text, f: Text)
    ensures s + a + b + c + d + e + f == s + (a + b + c + d + e + f)
  {
  }

  /** `to_json`. */
  method WriteExtension(e: DataFileExtension) returns (s: Text)
    ensures s == ToJson(e)
  {
    hide JsonString, SummaryJson, SummariesJson, Pending;
    s := "{\"version\":\"";
    s := s + "v1";
    s := s + "\",\"sidecar_relative_path\":";
    s := WriteJsonString(s, e.path);
    s := s + ",\"summaries\":[";
    s := WriteList(s, e.summaries);
    s := s + "]}";
  }

  method WriteList(s0: Text, list: seq<IndexSummary>) returns (s: Text)
    ensures s == s0 + SummariesJson(list)
  {
    hide SummaryJson, SummariesJson, Pending;
    s := s0;
    PendingEnds(list);
    for i := 0 to |list|
      invariant s + Pending(list, i) == s0 + SummariesJson(list)
    {
      PendingStep(s, list, i);
      if i > 0 {
        s := s + ",";
      }
      s := WriteSummary(s, list[i]);
    }
  }

  /** What is still to be written before element `i`. */
  function Pending(list: seq<IndexSummary>, i: nat): Text
    requires i <= |list|
  {
    if i == 0 then SummariesJson(list) else if i == |list| then "" else "," + SummariesJson(list[i..])
  }

  lemma PendingEnds(list: seq<IndexSummary>)
    ensures Pending(list, 0) == SummariesJson(list) && Pending(list, |list|) == ""
  {
  }

  lemma PendingStep(s: Text, list: seq<IndexSummary>, i: nat)
    requires i < |list|
    ensures s + Pending(list, i) == s + (if i > 0 then "," else "") + SummaryJson(list[i]) + Pending(list, i + 1)
  {
    hide SummaryJson;
    assert list[i..][1..] == list[i + 1..] && (i == 0 ==> list[i..] == list);
    var one, rest := SummaryJson(list[i]), Pending(list, i + 1);
    assert SummariesJson(list[i..]) == one + rest;
    hide SummariesJson;
    if i > 0 {
      assert s + ("," + (one + rest)) == s + "," + one + rest;
    } else {
      assert s + (one + rest) == s + "" + one + rest;
    }
  }
}
