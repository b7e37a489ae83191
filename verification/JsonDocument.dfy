/** JSON documents in any layout: blanks anywhere, members in any order and repeated, members nobody
    knows, commas left out. What reading one gives is said on its tree; the parser works on its text. */
module JsonDocument {
  import opened Bits
  import opened JsonText
  import opened Extension

  // ----- string literals -----

  /** A byte as it is, or a backslash and a character. */
  datatype Piece = Raw(c: char) | Escape(c: char)

  predicate PieceOk(p: Piece) {
    match p
    case Raw(c) => c != '"' && c != '\\'
    case Escape(c) => EscapeKnown(c)
  }

  predicate EscapeKnown(c: char) {
    c == '"' || c == '\\' || c == '/' || c == 'n' || c == 'r' || c == 't'
  }

  predicate LiteralOk(ps: seq<Piece>) {
    ps == [] || (PieceOk(ps[0]) && LiteralOk(ps[1..]))
  }

  /** The pieces as text, in front of what follows. */
  function LiteralTo(ps: seq<Piece>, rest: Text): Text {
    if ps == [] then rest
    else match ps[0]
      case Raw(c) => [c] + LiteralTo(ps[1..], rest)
      case Escape(c) => ['\\', c] + LiteralTo(ps[1..], rest)
  }

  /** What a literal stands for. Behind an escape every byte counts as a character of its own. */
  function LiteralValue(ps: seq<Piece>, escaped: bool): Text {
    if ps == [] then ""
    else match ps[0]
      case Raw(c) => (if escaped then PushAsChar(c) else [c]) + LiteralValue(ps[1..], escaped)
      case Escape(c) =>
        [if c == 'n' then '\n' else if c == 'r' then '\r' else if c == 't' then '\t' else c] + LiteralValue(ps[1..], true)
  }

  lemma {:induction false} LiteralRead(out: Text, escaped: bool, ps: seq<Piece>, rest: Text)
    requires LiteralOk(ps)
    ensures StringBody(out, escaped, LiteralTo(ps, "\"" + rest)) == Parsed((out + LiteralValue(ps, escaped), rest))
    decreases |ps|
  {
    hide PushAsChar;
    if ps == [] {
      assert ("\"" + rest)[1..] == rest && out + "" == out;
    } else {
      var s, more := LiteralTo(ps, "\"" + rest), LiteralTo(ps[1..], "\"" + rest);
      match ps[0]
      case Raw(c) =>
        assert s[1..] == more;
        var v := if escaped then PushAsChar(c) else [c];
        LiteralRead(out + v, escaped, ps[1..], rest);
        assert out + v + LiteralValue(ps[1..], escaped) == out + (v + LiteralValue(ps[1..], escaped));
      case Escape(c) =>
        assert s[1..] == [c] + more && s[1..][1..] == more;
        var v := if c == 'n' then '\n' else if c == 'r' then '\r' else if c == 't' then '\t' else c;
        LiteralRead(out + [v], true, ps[1..], rest);
        assert out + [v] + LiteralValue(ps[1..], true) == out + ([v] + LiteralValue(ps[1..], true));
    }
  }

  /** A literal that does not end, or that holds an escape nobody knows, is malformed. */
  lemma {:induction false} LiteralBroken(out: Text, escaped: bool, ps: seq<Piece>, tail: Text)
    requires LiteralOk(ps) && (tail == "" || tail == "\\" || (|tail| > 1 && tail[0] == '\\' && !EscapeKnown(tail[1])))
    ensures StringBody(out, escaped, LiteralTo(ps, tail)) == Malformed
    decreases |ps|
  {
    hide PushAsChar;
    if ps != [] {
      var s, more := LiteralTo(ps, tail), LiteralTo(ps[1..], tail);
      match ps[0]
      case Raw(c) =>
        assert s[1..] == more;
        LiteralBroken(out + if escaped then PushAsChar(c) else [c], escaped, ps[1..], tail);
      case Escape(c) =>
        assert s[1..] == [c] + more && s[1..][1..] == more;
        LiteralBroken(out + [if c == 'n' then '\n' else if c == 'r' then '\r' else if c == 't' then '\t' else c], true, ps[1..], tail);
    }
  }

  // ----- blanks -----

  predicate BlankChar(c: char) {
    c == ' ' || c == '\t' || c == '\n' || c == '\r'
  }

  predicate Blank(ws: Text) {
    ws == "" || (BlankChar(ws[0]) && Blank(ws[1..]))
  }

  /** Those four characters are skipped and no others. */
  lemma {:induction false} BlankSkipped(ws: Text, s: Text)
    requires Blank(ws)
    ensures SkipSpace(ws + s) == SkipSpace(s)
    ensures s == "" || !BlankChar(s[0]) ==> SkipSpace(s) == s
  {
    if ws == "" {
      assert ws + s == s;
    } else {
      assert (ws + s)[1..] == ws[1..] + s;
      BlankSkipped(ws[1..], s);
    }
  }

  lemma {:induction false} SkipTwice(s: Text)
    ensures SkipSpace(SkipSpace(s)) == SkipSpace(s)
  {
    if s != "" && IsSpace(s[0]) {
      SkipTwice(s[1..]);
    }
  }

  // ----- documents -----

  datatype Value =
    | Str(ps: seq<Piece>)
    | Num(negative: bool, digits: Text)
    | Word(word: Text)
    | Obj(members: Members, end: Text)
    | Arr(items: Items, end: Text)

  /** Blanks, the name, blanks, a colon, blanks, the value, blanks, and perhaps a comma. */
  datatype Members =
    | NoMembers
    | Member(before: Text, name: seq<Piece>, colon: Text, gap: Text, value: Value, after: Text, comma: bool, more: Members)

  datatype Items =
    | NoItems
    | Item(before: Text, value: Value, after: Text, comma: bool, more: Items)

  predicate AllDigits(d: Text) {
    forall i :: 0 <= i < |d| ==> '0' <= d[i] <= '9'
  }

  function NumberOf(negative: bool, digits: Text): int {
    if negative then -(DigitsValue(digits) as int) else DigitsValue(digits)
  }

  predicate ValueOk(v: Value) {
    match v
    case Str(ps) => LiteralOk(ps)
    case Num(negative, digits) =>
      digits != "" && AllDigits(digits) && -0x8000_0000_0000_0000 <= NumberOf(negative, digits) < 0x8000_0000_0000_0000
    case Word(word) => word == "true" || word == "false" || word == "null"
    case Obj(members, end) => MembersOk(members) && Blank(end)
    case Arr(items, end) => ItemsOk(items) && Blank(end)
  }

  predicate MembersOk(ms: Members) {
    match ms
    case NoMembers => true
    case Member(before, name, colon, gap, value, after, _, more) =>
      Blank(before) && LiteralOk(name) && Blank(colon) && Blank(gap) && ValueOk(value) && Blank(after) && MembersOk(more)
  }

  /** A number needs something between it and the next value. */
  predicate ItemsOk(items: Items) {
    match items
    case NoItems => true
    case Item(before, value, after, comma, more) =>
      && Blank(before) && ValueOk(value) && Blank(after) && ItemsOk(more)
      && (value.Num? ==> comma || after != "" || more.NoItems?)
  }

  /** The text of a value in front of what follows. */
  function TextTo(v: Value, rest: Text): Text
    decreases v
  {
    match v
    case Str(ps) => "\"" + LiteralTo(ps, "\"" + rest)
    case Num(negative, digits) => (if negative then "-" else "") + (digits + rest)
    case Word(word) => word + rest
    case Obj(members, end) => "{" + MembersTo(members, end + ("}" + rest))
    case Arr(items, end) => "[" + ItemsTo(items, end + ("]" + rest))
  }

  function MembersTo(ms: Members, rest: Text): Text
    decreases ms
  {
    match ms
    case NoMembers => rest
    case Member(before, name, colon, gap, value, after, comma, more) =>
      before + ("\"" + LiteralTo(name, "\"" + (colon + (":" + (gap + TextTo(value, after + Comma(comma, MembersTo(more, rest))))))))
  }

  function ItemsTo(items: Items, rest: Text): Text
    decreases items
  {
    match items
    case NoItems => rest
    case Item(before, value, after, comma, more) => before + TextTo(value, after + Comma(comma, ItemsTo(more, rest)))
  }

  function Comma(comma: bool, rest: Text): Text {
    if comma then "," + rest else rest
  }

  // ----- reading the punctuation -----

  /** Behind blanks, a character that is none is found, or missed. */
  lemma Found(ws: Text, c: char, rest: Text, d: char)
    requires Blank(ws) && !BlankChar(c)
    ensures SkipSpace(ws + ([c] + rest)) == [c] + rest
    ensures Expect(ws + ([c] + rest), d) == if c == d then Parsed(rest) else Malformed
    ensures TryClose(ws + ([c] + rest), d) == if c == d then (true, rest) else (false, [c] + rest)
    ensures AfterComma(ws + ([c] + rest)) == if c == ',' then rest else [c] + rest
  {
    BlankSkipped(ws, [c] + rest);
    assert ([c] + rest)[1..] == rest;
  }

  /** A text whose first character that is no blank is `c`. */
  predicate StartsWith(s: Text, c: char) {
    SkipSpace(s) != "" && SkipSpace(s)[0] == c
  }

  /** The comma, if there is one, is taken; if not, blanks are. */
  lemma CommaTaken(after: Text, comma: bool, next: Text)
    requires Blank(after) && !StartsWith(next, ',')
    ensures AfterComma(after + Comma(comma, next)) == if comma then next else SkipSpace(next)
  {
    if comma {
      Found(after, ',', next, ',');
      assert "," + next == [','] + next;
    } else {
      BlankSkipped(after, next);
    }
  }

  /** Readers that start by skipping blanks do not notice when some are gone. */
  lemma BlanksGone(s: Text)
    ensures NameAt(SkipSpace(s)) == NameAt(s)
    ensures SkipMembers(SkipSpace(s)) == SkipMembers(s)
    ensures forall c :: TryClose(SkipSpace(s), c) == TryClose(s, c)
  {
    SkipTwice(s);
  }

  lemma MembersStart(ms: Members, end: Text, rest: Text)
    requires MembersOk(ms) && Blank(end)
    ensures var s := MembersTo(ms, end + ("}" + rest));
            SkipSpace(s) != "" && (SkipSpace(s)[0] == '"' || SkipSpace(s)[0] == '}') && !StartsWith(s, ',')
  {
    hide LiteralTo, TextTo;
    match ms
    case NoMembers =>
      Found(end, '}', rest, '}');
      assert "}" + rest == ['}'] + rest;
    case Member(before, name, colon, gap, value, after, comma, more) =>
      var inner := LiteralTo(name, "\"" + (colon + (":" + (gap + TextTo(value, after + Comma(comma, MembersTo(more, end + ("}" + rest))))))));
      Found(before, '"', inner, '"');
      assert "\"" + inner == ['"'] + inner;
  }

  /** The next member's name and what follows its colon, or the end of the object. */
  lemma NameRead(ms: Members, end: Text, rest: Text)
    requires MembersOk(ms) && Blank(end)
    ensures ms.NoMembers? ==> NameAt(MembersTo(ms, end + ("}" + rest))) == Parsed((None, rest))
    ensures ms.Member? ==>
              NameAt(MembersTo(ms, end + ("}" + rest)))
              == Parsed((Some(LiteralValue(ms.name, false)),
                         ms.gap + TextTo(ms.value, ms.after + Comma(ms.comma, MembersTo(ms.more, end + ("}" + rest))))))
  {
    hide TextTo, LiteralTo, LiteralValue, SkipSpace, StringBody;
    match ms
    case NoMembers =>
      Found(end, '}', rest, '}');
      assert "}" + rest == ['}'] + rest;
    case Member(before, name, colon, gap, value, after, comma, more) =>
      var follows := gap + TextTo(value, after + Comma(comma, MembersTo(more, end + ("}" + rest))));
      var inner := LiteralTo(name, "\"" + (colon + (":" + follows)));
      assert "\"" + inner == ['"'] + inner && ":" + follows == [':'] + follows;
      Found(before, '"', inner, '}');
      Found("", '"', inner, '"');
      assert "" + (['"'] + inner) == ['"'] + inner;
      LiteralRead("", false, name, colon + (":" + follows));
      assert "" + LiteralValue(name, false) == LiteralValue(name, false);
      Found(colon, ':', follows, ':');
  }

  // ----- reading the leaves -----

  lemma StringRead(gap: Text, ps: seq<Piece>, rest: Text)
    requires Blank(gap) && LiteralOk(ps)
    ensures StringAt(gap + TextTo(Str(ps), rest)) == Parsed((LiteralValue(ps, false), rest))
  {
    hide LiteralTo, LiteralValue, SkipSpace, StringBody;
    var inner := LiteralTo(ps, "\"" + rest);
    assert "\"" + inner == ['"'] + inner;
    Found(gap, '"', inner, '"');
    LiteralRead("", false, ps, rest);
    assert "" + LiteralValue(ps, false) == LiteralValue(ps, false);
  }

  /** A number is its digits' value, or malformed when it has none or does not fit 64 bits. */
  lemma NumberExactly(gap: Text, negative: bool, digits: Text, rest: Text)
    requires Blank(gap) && AllDigits(digits) && (rest == "" || !('0' <= rest[0] <= '9'))
    requires digits == "" && !negative ==> rest == "" || (!BlankChar(rest[0]) && rest[0] != '-')
    ensures var v := NumberOf(negative, digits);
            IntegerAt(gap + ((if negative then "-" else "") + (digits + rest)))
            == if digits != "" && -0x8000_0000_0000_0000 <= v < 0x8000_0000_0000_0000 then Parsed((v, rest)) else Malformed
  {
    hide DigitsValue, SkipSpace;
    var t := (if negative then "-" else "") + (digits + rest);
    BlankSkipped(gap, t);
    DigitsTaken(digits, rest);
    assert (digits + rest)[|digits|..] == rest;
    if negative {
      assert t[0] == '-' && t[1..] == digits + rest;
    } else {
      assert t == digits + rest;
      assert t != "" ==> t[0] == if digits != "" then digits[0] else rest[0];
    }
  }

  lemma {:induction false} DigitsTaken(d: Text, rest: Text)
    requires AllDigits(d) && (rest == "" || !('0' <= rest[0] <= '9'))
    ensures Digits(d + rest) == d
    decreases |d|
  {
    if d == "" {
      assert d + rest == rest;
    } else {
      assert (d + rest)[1..] == d[1..] + rest;
      DigitsTaken(d[1..], rest);
    }
  }

  /** Leading zeros do not count. */
  lemma {:induction false} LeadingZeros(zeros: nat, n: nat)
    ensures DigitsValue(seq(zeros, _ => '0') + DecimalNat(n)) == n
    decreases n
  {
    var z := seq(zeros, _ => '0');
    if n >= 10 {
      LeadingZeros(zeros, n / 10);
      var d := z + DecimalNat(n);
      assert d[..|d| - 1] == z + DecimalNat(n / 10) && d[|d| - 1] == '0' + (n % 10) as char;
    } else {
      OnlyZeros(zeros);
      var d := z + DecimalNat(n);
      assert DecimalNat(n) == ['0' + n as char];
      assert d[..|d| - 1] == z && d[|d| - 1] == '0' + n as char;
    }
  }

  lemma {:induction false} OnlyZeros(zeros: nat)
    ensures DigitsValue(seq(zeros, _ => '0')) == 0
  {
    if zeros > 0 {
      OnlyZeros(zeros - 1);
      assert seq(zeros, _ => '0')[..zeros - 1] == seq(zeros - 1, _ => '0');
    }
  }

  // ----- skipping a value -----

  /** What may stand behind a value: not a digit behind a number. */
  predicate CanFollow(v: Value, rest: Text) {
    v.Num? ==> rest == "" || !('0' <= rest[0] <= '9')
  }

  lemma {:induction false} ValueSkipped(gap: Text, v: Value, rest: Text)
    requires Blank(gap) && ValueOk(v) && CanFollow(v, rest)
    ensures SkipValue(gap + TextTo(v, rest)) == Parsed(rest)
    decreases v, 0
  {
    hide SkipValue, SkipMembers, SkipElements, SkipScalar, SkipSpace, MembersTo, ItemsTo, LiteralTo;
    var t := TextTo(v, rest);
    ValueStart(v, rest);
    BlankSkipped(gap, t);
    SkipCases(gap + t);
    match v
    case Obj(members, end) =>
      assert t[1..] == MembersTo(members, end + ("}" + rest));
      MembersSkipped(members, end, rest);
    case Arr(items, end) =>
      assert t[1..] == ItemsTo(items, end + ("]" + rest));
      ItemsSkipped(items, end, rest);
    case _ =>
      ScalarSkipped(v, rest);
  }

  lemma SkipCases(s: Text)
    ensures var t := SkipSpace(s);
            SkipValue(s)
            == if t == "" then Malformed
               else if t[0] == '{' then SkipMembers(t[1..])
               else if t[0] == '[' then SkipElements(t[1..])
               else SkipScalar(t)
  {
    hide SkipMembers, SkipElements, SkipScalar, SkipSpace;
  }

  lemma ScalarSkipped(v: Value, rest: Text)
    requires ValueOk(v) && CanFollow(v, rest) && (v.Str? || v.Num? || v.Word?)
    ensures TextTo(v, rest) != "" && SkipScalar(TextTo(v, rest)) == Parsed(rest)
  {
    hide LiteralTo, LiteralValue, StringAt, IntegerAt, SkipSpace, DigitsValue;
    var t := TextTo(v, rest);
    ValueStart(v, rest);
    assert "" + t == t;
    match v
    case Str(ps) =>
      StringRead("", ps, rest);
    case Num(negative, digits) =>
      NumberExactly("", negative, digits, rest);
    case Word(word) =>
      assert t[..|word|] == word && t[|word|..] == rest;
  }

  lemma {:induction false} MembersSkipped(ms: Members, end: Text, rest: Text)
    requires MembersOk(ms) && Blank(end)
    ensures SkipMembers(MembersTo(ms, end + ("}" + rest))) == Parsed(rest)
    decreases ms, 1
  {
    hide SkipValue, SkipMembers, TextTo, LiteralTo, StringAt, Expect, TryClose, AfterComma, MembersTo, SkipSpace;
    var s := MembersTo(ms, end + ("}" + rest));
    NameRead(ms, end, rest);
    MembersUnfold(s);
    if ms.Member? {
      var next := MembersTo(ms.more, end + ("}" + rest));
      var follows := ms.after + Comma(ms.comma, next);
      MembersStart(ms.more, end, rest);
      MemberFollows(ms, next);
      ValueSkipped(ms.gap, ms.value, follows);
      CommaTaken(ms.after, ms.comma, next);
      BlanksGone(next);
      MembersSkipped(ms.more, end, rest);
    }
  }

  /** One member of an object that is skipped. */
  lemma MembersUnfold(s: Text)
    ensures SkipMembers(s)
         == var (name, a) :- NameAt(s);
            if name.None? then Parsed(a) else var c :- SkipValue(a); SkipMembers(AfterComma(c))
  {
    hide SkipValue, StringAt, Expect, TryClose, AfterComma;
  }

  /** Blanks, a comma, a quote or a brace follow a member's value. */
  lemma MemberFollows(ms: Members, next: Text)
    requires MembersOk(ms) && ms.Member?
    requires SkipSpace(next) != "" && (SkipSpace(next)[0] == '"' || SkipSpace(next)[0] == '}')
    ensures CanFollow(ms.value, ms.after + Comma(ms.comma, next))
  {
    NoDigitFirst(next);
    if ms.after == "" {
      assert ms.after + Comma(ms.comma, next) == Comma(ms.comma, next);
    }
  }

  lemma NoDigitFirst(s: Text)
    requires SkipSpace(s) != "" && !('0' <= SkipSpace(s)[0] <= '9')
    ensures s != "" && !('0' <= s[0] <= '9')
  {
  }

  lemma {:induction false} ItemsSkipped(items: Items, end: Text, rest: Text)
    requires ItemsOk(items) && Blank(end)
    ensures SkipElements(ItemsTo(items, end + ("]" + rest))) == Parsed(rest)
    decreases items, 1
  {
    hide SkipValue, TextTo, SkipSpace, AfterComma;
    var s := ItemsTo(items, end + ("]" + rest));
    match items
    case NoItems =>
      assert "]" + rest == [']'] + rest;
      Found(end, ']', rest, ']');
    case Item(before, value, after, comma, more) =>
      var next := ItemsTo(more, end + ("]" + rest));
      var follows := after + Comma(comma, next);
      ItemFollows(items, end, rest);
      ItemStart(before, value, follows);
      ValueSkipped("", value, follows);
      assert "" + TextTo(value, follows) == TextTo(value, follows);
      ItemsStart(more, end, rest);
      CommaTaken(after, comma, next);
      BlanksGoneElements(next);
      ItemsSkipped(more, end, rest);
  }

  lemma BlanksGoneElements(s: Text)
    ensures SkipElements(SkipSpace(s)) == SkipElements(s)
  {
    SkipTwice(s);
  }

  /** A value's first character, which is no blank and closes nothing. */
  lemma ValueStart(v: Value, rest: Text)
    requires ValueOk(v)
    ensures var t := TextTo(v, rest);
            && t != "" && !BlankChar(t[0]) && t[0] != ']' && t[0] != '}' && t[0] != ','
            && (t[0] == '"' <==> v.Str?) && (t[0] == '{' <==> v.Obj?) && (t[0] == '[' <==> v.Arr?)
            && (t[0] == '-' || '0' <= t[0] <= '9' <==> v.Num?)
  {
    hide LiteralTo, MembersTo, ItemsTo;
    if v.Num? && !v.negative {
      assert TextTo(v, rest) == v.digits + rest;
    }
  }

  lemma ItemStart(before: Text, v: Value, rest: Text)
    requires Blank(before) && ValueOk(v)
    ensures TryClose(before + TextTo(v, rest), ']') == (false, TextTo(v, rest))
    ensures SkipSpace(before + TextTo(v, rest)) == TextTo(v, rest)
  {
    hide TextTo;
    ValueStart(v, rest);
    BlankSkipped(before, TextTo(v, rest));
  }

  lemma ItemsStart(items: Items, end: Text, rest: Text)
    requires ItemsOk(items) && Blank(end)
    ensures !StartsWith(ItemsTo(items, end + ("]" + rest)), ',')
  {
    hide TextTo;
    match items
    case NoItems =>
      assert "]" + rest == [']'] + rest;
      Found(end, ']', rest, ']');
    case Item(before, value, after, comma, more) =>
      var follows := after + Comma(comma, ItemsTo(more, end + ("]" + rest)));
      ValueStart(value, follows);
      ItemStart(before, value, follows);
  }

  lemma ItemFollows(items: Items, end: Text, rest: Text)
    requires ItemsOk(items) && Blank(end) && items.Item?
    ensures CanFollow(items.value, items.after + Comma(items.comma, ItemsTo(items.more, end + ("]" + rest))))
  {
    hide TextTo;
    if items.value.Num? && items.after == "" {
      assert items.after + Comma(items.comma, ItemsTo(items.more, end + ("]" + rest)))
          == Comma(items.comma, ItemsTo(items.more, end + ("]" + rest)));
      if !items.comma && end == "" {
        assert end + ("]" + rest) == "]" + rest;
      }
    }
  }

  // ----- hex -----

  predicate HexChar(c: char) {
    '0' <= c <= '9' || 'a' <= c <= 'f' || 'A' <= c <= 'F'
  }

  function NibbleOf(c: char): (n: nat)
    requires HexChar(c)
    ensures n < 16
  {
    if c <= '9' then c as nat - '0' as nat else if c <= 'F' then c as nat - 'A' as nat + 10 else c as nat - 'a' as nat + 10
  }

  predicate HexText(t: Text) {
    |t| % 2 == 0 && forall i :: 0 <= i < |t| ==> HexChar(t[i])
  }

  function HexBytes(t: Text): (b: seq<Byte>)
    requires HexText(t)
    ensures |b| == |t| / 2
  {
    seq(|t| / 2, i requires 0 <= i < |t| / 2 => 16 * NibbleOf(t[2 * i]) + NibbleOf(t[2 * i + 1]))
  }

  /** Digits of either case in pairs, and nothing else. */
  lemma {:induction false} HexExactly(t: Text)
    ensures ParseHex(t) == if HexText(t) then Parsed(HexBytes(t)) else Malformed
    decreases |t|
  {
    hide NibbleOf, HexChar, HexPair;
    if |t| % 2 == 0 && t != "" {
      var more := t[2..];
      HexExactly(more);
      PairExactly(t[0], t[1]);
      assert forall i :: 2 <= i < |t| ==> t[i] == more[i - 2];
      if HexText(t) {
        assert forall i :: 0 <= i < |more| ==> more[i] == t[i + 2];
        assert HexBytes(t) == [16 * NibbleOf(t[0]) + NibbleOf(t[1])] + HexBytes(more);
      } else if HexText(more) {
        assert !HexChar(t[0]) || !HexChar(t[1]);
      }
    }
  }

  lemma PairExactly(a: char, b: char)
    ensures HexPair(a, b) == if HexChar(a) && HexChar(b) then Parsed(16 * NibbleOf(a) + NibbleOf(b)) else Malformed
  {
  }

  // ----- what a bound's object says -----

  /** One member: the last one of a name counts, unknown ones do not; a known one of another kind than
      it should be spoils the object. */
  function KeyStep(name: Text, st: KeyFields, v: Value): Option<KeyFields>
    requires ValueOk(v)
  {
    match name
    case "type" => if v.Str? then Some(st.(typ := Some(LiteralValue(v.ps, false)))) else None
    case "value" => if v.Num? then Some(st.(number := Some(NumberOf(v.negative, v.digits)))) else None
    case "value_hex" =>
      if v.Str? && HexText(LiteralValue(v.ps, false)) then Some(st.(blob := Some(HexBytes(LiteralValue(v.ps, false))))) else None
    case _ => Some(st)
  }

  function KeyFold(st: KeyFields, ms: Members): Option<KeyFields>
    requires MembersOk(ms)
    decreases ms
  {
    if ms.NoMembers? then Some(st)
    else
      var next := KeyStep(LiteralValue(ms.name, false), st, ms.value);
      if next.None? then None else KeyFold(next.value, ms.more)
  }

  /** The bound a value stands for. */
  function KeyOf(v: Value): Option<SummaryKey>
    requires ValueOk(v)
  {
    if !v.Obj? then None
    else
      var f := KeyFold(KeyFields(None, None, None), v.members);
      if f.None? then None
      else match f.value.typ
        case Some("i64") => if f.value.number.Some? then Some(I64(f.value.number.value)) else None
        case Some("i32") =>
          if f.value.number.Some? && -0x8000_0000 <= f.value.number.value < 0x8000_0000 then Some(I32(f.value.number.value)) else None
        case Some("bytes") => if f.value.blob.Some? then Some(Bytes(f.value.blob.value)) else None
        case _ => None
  }

  // ----- what a summary's object says -----

  function SummaryStep(name: Text, st: SummaryFields, v: Value): Option<SummaryFields>
    requires ValueOk(v)
  {
    match name
    case "name" => if v.Str? then Some(st.(name := Some(LiteralValue(v.ps, false)))) else None
    case "min_key" => if KeyOf(v).Some? then Some(st.(min := KeyOf(v))) else None
    case "max_key" => if KeyOf(v).Some? then Some(st.(max := KeyOf(v))) else None
    case "dataset_bloom_hex" =>
      if v.Str? && HexText(LiteralValue(v.ps, false)) then Some(st.(bloom := Some(HexBytes(LiteralValue(v.ps, false))))) else None
    case _ => Some(st)
  }

  function SummaryFold(st: SummaryFields, ms: Members): Option<SummaryFields>
    requires MembersOk(ms)
    decreases ms
  {
    if ms.NoMembers? then Some(st)
    else
      var next := SummaryStep(LiteralValue(ms.name, false), st, ms.value);
      if next.None? then None else SummaryFold(next.value, ms.more)
  }

  function SummaryOf(v: Value): Option<IndexSummary>
    requires ValueOk(v)
  {
    if !v.Obj? then None
    else
      var f := SummaryFold(SummaryFields(None, None, None, None), v.members);
      if f.None? || f.value.name.None? then None
      else Some(IndexSummary(f.value.name.value, f.value.min, f.value.max, f.value.bloom))
  }

  function ListOf(items: Items): Option<seq<IndexSummary>>
    requires ItemsOk(items)
  {
    if items.NoItems? then Some([])
    else
      var one, more := SummaryOf(items.value), ListOf(items.more);
      if one.None? || more.None? then None else Some([one.value] + more.value)
  }

  // ----- what the extension's object says -----

  function TopStep(name: Text, st: TopFields, v: Value): Option<TopFields>
    requires ValueOk(v)
  {
    match name
    case "version" => if v.Str? then Some(st.(version := Some(LiteralValue(v.ps, false)))) else None
    case "sidecar_relative_path" => if v.Str? then Some(st.(path := Some(LiteralValue(v.ps, false)))) else None
    case "summaries" => if v.Arr? && ListOf(v.items).Some? then Some(st.(summaries := ListOf(v.items))) else None
    case _ => Some(st)
  }

  function TopFold(st: TopFields, ms: Members): Option<TopFields>
    requires MembersOk(ms)
    decreases ms
  {
    if ms.NoMembers? then Some(st)
    else
      var next := TopStep(LiteralValue(ms.name, false), st, ms.value);
      if next.None? then None else TopFold(next.value, ms.more)
  }

  // ----- reading them -----

  /** A value of another kind is missed. */
  lemma KindMissed(gap: Text, v: Value, rest: Text)
    requires Blank(gap) && ValueOk(v)
    ensures !v.Str? ==> StringAt(gap + TextTo(v, rest)) == Malformed
    ensures !v.Num? ==> IntegerAt(gap + TextTo(v, rest)) == Malformed
    ensures !v.Obj? ==> Expect(gap + TextTo(v, rest), '{') == Malformed
    ensures !v.Arr? ==> Expect(gap + TextTo(v, rest), '[') == Malformed
  {
    hide TextTo, SkipSpace, StringBody, DigitsValue;
    ValueStart(v, rest);
    BlankSkipped(gap, TextTo(v, rest));
  }

  /** An object or an array is opened. */
  lemma Opened(gap: Text, v: Value, rest: Text)
    requires Blank(gap) && ValueOk(v)
    ensures v.Obj? ==> Expect(gap + TextTo(v, rest), '{') == Parsed(MembersTo(v.members, v.end + ("}" + rest)))
    ensures v.Arr? ==> Expect(gap + TextTo(v, rest), '[') == Parsed(ItemsTo(v.items, v.end + ("]" + rest)))
  {
    hide MembersTo, ItemsTo, SkipSpace, LiteralTo;
    if v.Obj? {
      assert "{" + MembersTo(v.members, v.end + ("}" + rest)) == ['{'] + MembersTo(v.members, v.end + ("}" + rest));
      Found(gap, '{', MembersTo(v.members, v.end + ("}" + rest)), '{');
    } else if v.Arr? {
      assert "[" + ItemsTo(v.items, v.end + ("]" + rest)) == ['['] + ItemsTo(v.items, v.end + ("]" + rest));
      Found(gap, '[', ItemsTo(v.items, v.end + ("]" + rest)), '[');
    }
  }

  /** A string, or a miss. */
  lemma StringOrMiss(gap: Text, v: Value, rest: Text)
    requires Blank(gap) && ValueOk(v)
    ensures StringAt(gap + TextTo(v, rest)) == if v.Str? then Parsed((LiteralValue(v.ps, false), rest)) else Malformed
  {
    hide TextTo, LiteralValue, StringAt;
    if v.Str? {
      StringRead(gap, v.ps, rest);
    } else {
      KindMissed(gap, v, rest);
    }
  }

  lemma NumberOrMiss(gap: Text, v: Value, rest: Text)
    requires Blank(gap) && ValueOk(v) && CanFollow(v, rest)
    ensures IntegerAt(gap + TextTo(v, rest)) == if v.Num? then Parsed((NumberOf(v.negative, v.digits), rest)) else Malformed
  {
    hide IntegerAt, DigitsValue;
    if v.Num? {
      NumberExactly(gap, v.negative, v.digits, rest);
    } else {
      hide TextTo;
      KindMissed(gap, v, rest);
    }
  }

  lemma KeyFieldRead(name: Text, st: KeyFields, gap: Text, v: Value, rest: Text)
    requires Blank(gap) && ValueOk(v) && CanFollow(v, rest)
    ensures KeyField(name, st, gap + TextTo(v, rest))
         == var next := KeyStep(name, st, v); if next.Some? then Parsed((next.value, rest)) else Malformed
  {
    hide TextTo, LiteralValue, StringAt, IntegerAt, SkipValue, HexText, HexBytes, ParseHex, ValueOk;
    StringOrMiss(gap, v, rest);
    NumberOrMiss(gap, v, rest);
    ValueSkipped(gap, v, rest);
    if v.Str? {
      HexExactly(LiteralValue(v.ps, false));
    }
  }

  lemma {:induction false} KeyMembersRead(st: KeyFields, ms: Members, end: Text, rest: Text)
    requires MembersOk(ms) && Blank(end)
    ensures KeyMembers(st, MembersTo(ms, end + ("}" + rest)))
         == var f := KeyFold(st, ms); if f.Some? then Parsed((f.value, rest)) else Malformed
    decreases ms
  {
    hide NameAt, KeyField, KeyStep, MembersTo, TextTo, LiteralValue, AfterComma, SkipSpace, ValueOk;
    NameRead(ms, end, rest);
    if ms.Member? {
      var next := MembersTo(ms.more, end + ("}" + rest));
      MembersStart(ms.more, end, rest);
      MemberOk(ms);
      MemberFollows(ms, next);
      KeyFieldRead(LiteralValue(ms.name, false), st, ms.gap, ms.value, ms.after + Comma(ms.comma, next));
      CommaTaken(ms.after, ms.comma, next);
      BlanksGone(next);
      var step := KeyStep(LiteralValue(ms.name, false), st, ms.value);
      if step.Some? {
        KeyMembersRead(step.value, ms.more, end, rest);
        KeyBlanksGone(step.value, next);
      }
    }
  }

  lemma MemberOk(ms: Members)
    requires MembersOk(ms) && ms.Member?
    ensures Blank(ms.before) && LiteralOk(ms.name) && Blank(ms.colon) && Blank(ms.gap) && ValueOk(ms.value) && Blank(ms.after)
    ensures MembersOk(ms.more)
  {
  }

  lemma KeyBlanksGone(st: KeyFields, s: Text)
    ensures KeyMembers(st, SkipSpace(s)) == KeyMembers(st, s)
  {
    hide NameAt, KeyField, SkipSpace, AfterComma;
    BlanksGone(s);
  }

  lemma KeyRead(gap: Text, v: Value, rest: Text)
    requires Blank(gap) && ValueOk(v)
    ensures KeyAt(gap + TextTo(v, rest)) == if KeyOf(v).Some? then Parsed((KeyOf(v).value, rest)) else Malformed
  {
    hide KeyMembers, KeyFold, TextTo, Expect, MembersTo;
    if v.Obj? {
      Opened(gap, v, rest);
      KeyMembersRead(KeyFields(None, None, None), v.members, v.end, rest);
    } else {
      KindMissed(gap, v, rest);
    }
  }

  lemma SummaryFieldRead(name: Text, st: SummaryFields, gap: Text, v: Value, rest: Text)
    requires Blank(gap) && ValueOk(v) && CanFollow(v, rest)
    ensures SummaryField(name, st, gap + TextTo(v, rest))
         == var next := SummaryStep(name, st, v); if next.Some? then Parsed((next.value, rest)) else Malformed
  {
    hide TextTo, LiteralValue, StringAt, KeyAt, KeyOf, SkipValue, HexText, HexBytes, ParseHex, ValueOk;
    StringOrMiss(gap, v, rest);
    KeyRead(gap, v, rest);
    ValueSkipped(gap, v, rest);
    if v.Str? {
      HexExactly(LiteralValue(v.ps, false));
    }
  }

  lemma {:induction false} SummaryMembersRead(st: SummaryFields, ms: Members, end: Text, rest: Text)
    requires MembersOk(ms) && Blank(end)
    ensures SummaryMembers(st, MembersTo(ms, end + ("}" + rest)))
         == var f := SummaryFold(st, ms); if f.Some? then Parsed((f.value, rest)) else Malformed
    decreases ms
  {
    hide NameAt, SummaryField, SummaryStep, MembersTo, TextTo, LiteralValue, AfterComma, SkipSpace, ValueOk;
    NameRead(ms, end, rest);
    if ms.Member? {
      var next := MembersTo(ms.more, end + ("}" + rest));
      MembersStart(ms.more, end, rest);
      MemberOk(ms);
      MemberFollows(ms, next);
      SummaryFieldRead(LiteralValue(ms.name, false), st, ms.gap, ms.value, ms.after + Comma(ms.comma, next));
      CommaTaken(ms.after, ms.comma, next);
      BlanksGone(next);
      var step := SummaryStep(LiteralValue(ms.name, false), st, ms.value);
      if step.Some? {
        SummaryMembersRead(step.value, ms.more, end, rest);
        SummaryBlanksGone(step.value, next);
      }
    }
  }

  lemma SummaryBlanksGone(st: SummaryFields, s: Text)
    ensures SummaryMembers(st, SkipSpace(s)) == SummaryMembers(st, s)
  {
    hide NameAt, SummaryField, SkipSpace, AfterComma;
    BlanksGone(s);
  }

  lemma SummaryRead(gap: Text, v: Value, rest: Text)
    requires Blank(gap) && ValueOk(v)
    ensures SummaryAt(gap + TextTo(v, rest)) == if SummaryOf(v).Some? then Parsed((SummaryOf(v).value, rest)) else Malformed
  {
    hide SummaryMembers, SummaryFold, TextTo, Expect, MembersTo;
    if v.Obj? {
      Opened(gap, v, rest);
      SummaryMembersRead(SummaryFields(None, None, None, None), v.members, v.end, rest);
    } else {
      KindMissed(gap, v, rest);
    }
  }

  lemma {:induction false} ListRead(out: seq<IndexSummary>, items: Items, end: Text, rest: Text)
    requires ItemsOk(items) && Blank(end)
    ensures Elements(out, ItemsTo(items, end + ("]" + rest)))
         == var list := ListOf(items); if list.Some? then Parsed((out + list.value, rest)) else Malformed
    decreases items
  {
    hide SummaryAt, SummaryOf, TextTo, AfterComma, SkipSpace, ValueOk;
    match items
    case NoItems =>
      ListEnd(out, end, rest);
      assert out + [] == out;
    case Item(before, value, after, comma, more) =>
      var next := ItemsTo(more, end + ("]" + rest));
      var follows := after + Comma(comma, next);
      ItemFollows(items, end, rest);
      ItemStart(before, value, follows);
      SummaryRead("", value, follows);
      assert "" + TextTo(value, follows) == TextTo(value, follows);
      ItemsStart(more, end, rest);
      CommaTaken(after, comma, next);
      if SummaryOf(value).Some? {
        var one := SummaryOf(value).value;
        ListRead(out + [one], more, end, rest);
        ElementsBlanksGone(out + [one], next);
        if ListOf(more).Some? {
          assert out + [one] + ListOf(more).value == out + ([one] + ListOf(more).value);
        }
      }
  }

  lemma ListEnd(out: seq<IndexSummary>, end: Text, rest: Text)
    requires Blank(end)
    ensures Elements(out, end + ("]" + rest)) == Parsed((out, rest))
  {
    hide SummaryAt;
    assert "]" + rest == [']'] + rest;
    Found(end, ']', rest, ']');
  }

  lemma ElementsBlanksGone(out: seq<IndexSummary>, s: Text)
    ensures Elements(out, SkipSpace(s)) == Elements(out, s)
  {
    hide SummaryAt, SkipSpace, AfterComma, TryClose;
    BlanksGone(s);
  }

  lemma TopFieldRead(name: Text, st: TopFields, gap: Text, v: Value, rest: Text)
    requires Blank(gap) && ValueOk(v) && CanFollow(v, rest)
    ensures TopField(name, st, gap + TextTo(v, rest))
         == var next := TopStep(name, st, v); if next.Some? then Parsed((next.value, rest)) else Malformed
  {
    hide TextTo, LiteralValue, StringAt, SkipValue, Elements, ListOf, ItemsTo, Expect;
    StringOrMiss(gap, v, rest);
    ValueSkipped(gap, v, rest);
    if v.Arr? {
      Opened(gap, v, rest);
      ListRead([], v.items, v.end, rest);
      if ListOf(v.items).Some? {
        assert [] + ListOf(v.items).value == ListOf(v.items).value;
      }
    } else {
      KindMissed(gap, v, rest);
    }
  }

  lemma {:induction false} TopMembersRead(st: TopFields, ms: Members, end: Text, rest: Text)
    requires MembersOk(ms) && Blank(end)
    ensures TopMembers(st, MembersTo(ms, end + ("}" + rest)))
         == var f := TopFold(st, ms); if f.Some? then Parsed((f.value, rest)) else Malformed
    decreases ms
  {
    hide NameAt, TopField, TopStep, MembersTo, TextTo, LiteralValue, AfterComma, SkipSpace, ValueOk;
    NameRead(ms, end, rest);
    if ms.Member? {
      var next := MembersTo(ms.more, end + ("}" + rest));
      MembersStart(ms.more, end, rest);
      MemberOk(ms);
      MemberFollows(ms, next);
      TopFieldRead(LiteralValue(ms.name, false), st, ms.gap, ms.value, ms.after + Comma(ms.comma, next));
      CommaTaken(ms.after, ms.comma, next);
      BlanksGone(next);
      var step := TopStep(LiteralValue(ms.name, false), st, ms.value);
      if step.Some? {
        TopMembersRead(step.value, ms.more, end, rest);
        TopBlanksGone(step.value, next);
      }
    }
  }

  lemma TopBlanksGone(st: TopFields, s: Text)
    ensures TopMembers(st, SkipSpace(s)) == TopMembers(st, s)
  {
    hide NameAt, TopField, SkipSpace, AfterComma;
    BlanksGone(s);
  }

  /** What `from_json` gives on every document: malformed unless it is an object whose known members have
      the right kinds; then the version is looked at first, the path is required, and missing summaries
      are none. */
  lemma DocumentRead(before: Text, v: Value, rest: Text)
    requires Blank(before) && ValueOk(v)
    ensures var f := if v.Obj? then TopFold(TopFields(None, None, None), v.members) else None;
            FromJson(before + TextTo(v, rest))
            == if f.None? || f.value.version.None? then Malformed
               else if f.value.version != Some("v1") then UnsupportedVersion(f.value.version.value)
               else if f.value.path.None? then Malformed
               else Parsed(DataFileExtension(f.value.path.value, if f.value.summaries.Some? then f.value.summaries.value else []))
  {
    hide TopMembers, TopFold, TextTo, Expect, MembersTo;
    if v.Obj? {
      Opened(before, v, rest);
      TopMembersRead(TopFields(None, None, None), v.members, v.end, rest);
    } else {
      KindMissed(before, v, rest);
    }
  }
}
