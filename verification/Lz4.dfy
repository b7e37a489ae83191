/** `lz4_raw_uncompressed_size`: the walk over an LZ4 block, the block format it reads, and the bytes
    such a block stands for (LZ4 Block Format Description). */
module Lz4 {
  import opened Bits
  import opened Wire

  // ----- what the walk computes, on the rest of the buffer -----

  /** Bytes up to and including the first that is not 0xFF, added up; at the end of the buffer the
      chain just stops. */
  function Chain(s: seq<Byte>): (r: (nat, seq<Byte>))
    ensures |r.1| <= |s| && s[|s| - |r.1|..] == r.1
    ensures s != [] ==> |r.1| < |s|
  {
    if s == [] then (0, s)
    else if s[0] != 0xFF then (s[0], s[1..])
    else
      var (more, rest) := Chain(s[1..]);
      (0xFF + more, rest)
  }

  /** A length nibble, continued by a chain when it is 15. */
  function Length(nibble: nat, s: seq<Byte>): (r: (nat, seq<Byte>))
    ensures |r.1| <= |s| && s[|s| - |r.1|..] == r.1
  {
    if nibble == 15 then
      var (more, rest) := Chain(s);
      (15 + more, rest)
    else (nibble, s)
  }

  /** The literal run of a sequence: its length and what follows it. */
  function LiteralsAt(s: seq<Byte>): (r: Result<(nat, seq<Byte>)>)
    requires s != []
    ensures r.Ok? ==> |r.value.1| < |s|
  {
    var (lit, after) := Length(s[0] / 16, s[1..]);
    if lit > |after| then Err(Decompress) else Ok((lit, after[lit..]))
  }

  /** The offset and length of its match. */
  function MatchAt(token: Byte, s: seq<Byte>): (r: Result<(nat, seq<Byte>)>)
    ensures r.Ok? ==> |r.value.1| <= |s|
  {
    if |s| < 2 then Err(Decompress)
    else
      var (extra, rest) := Length(token % 16, s[2..]);
      Ok((extra + 4, rest))
  }

  /** Output counted so far, in front of what the rest gives. */
  function Plus(done: nat, rest: Result<nat>): Result<nat> {
    match rest
    case Ok(v) => Ok(done + v)
    case Err(e) => Err(e)
  }

  function Walk(s: seq<Byte>): Result<nat>
    decreases |s|
  {
    if s == [] then Ok(0)
    else
      var (lit, mid) :- LiteralsAt(s);
      if mid == [] then Ok(lit)
      else
        var (matchLen, rest) :- MatchAt(s[0], mid);
        Plus(lit + matchLen, Walk(rest))
  }

  // ----- the loop -----

  /** `if nibble == 15 { loop over chain bytes }`, `base` being what the length starts from. */
  method ReadLength(buf: seq<Byte>, i0: nat, nibble: nat, base: nat) returns (len: nat, i: nat)
    requires i0 <= |buf|
    ensures i0 <= i <= |buf|
    ensures len == base + Length(nibble, buf[i0..]).0 && buf[i..] == Length(nibble, buf[i0..]).1
  {
    len, i := base + nibble, i0;
    if nibble == 15 {
      var more := true;
      while i < |buf| && more
        invariant i0 <= i <= |buf|
        invariant more ==> len + Chain(buf[i..]).0 == base + 15 + Chain(buf[i0..]).0
        invariant more ==> Chain(buf[i..]).1 == Chain(buf[i0..]).1
        invariant !more ==> len == base + 15 + Chain(buf[i0..]).0 && buf[i..] == Chain(buf[i0..]).1
        decreases |buf| - i
      {
        assert buf[i..][1..] == buf[i + 1..];
        var b := buf[i];
        i := i + 1;
        len := len + b;
        more := b == 0xFF;
      }
      assert more ==> buf[i..] == [];
    }
  }

  method ReadLiterals(buf: seq<Byte>, i0: nat) returns (r: Result<nat>, i: nat)
    requires i0 < |buf|
    ensures i0 < i <= |buf|
    ensures LiteralsAt(buf[i0..]).Err? ==> r == Err(LiteralsAt(buf[i0..]).error)
    ensures LiteralsAt(buf[i0..]).Ok? ==> r == Ok(LiteralsAt(buf[i0..]).value.0) && buf[i..] == LiteralsAt(buf[i0..]).value.1
  {
    hide Length;
    assert buf[i0..][1..] == buf[i0 + 1..];
    var token := buf[i0];
    i := i0 + 1;
    var lit;
    lit, i := ReadLength(buf, i, token / 16, 0);
    if i + lit > |buf| {
      return Err(Decompress), i;
    }
    assert buf[i..][lit..] == buf[i + lit..];
    i := i + lit;
    r := Ok(lit);
  }

  method ReadMatch(buf: seq<Byte>, token: Byte, i0: nat) returns (r: Result<nat>, i: nat)
    requires i0 <= |buf|
    ensures i0 <= i <= |buf|
    ensures MatchAt(token, buf[i0..]).Err? ==> r == Err(MatchAt(token, buf[i0..]).error)
    ensures MatchAt(token, buf[i0..]).Ok? ==>
              && r == Ok(MatchAt(token, buf[i0..]).value.0) && buf[i..] == MatchAt(token, buf[i0..]).value.1
  {
    hide Length;
    i := i0;
    if i + 2 > |buf| {
      return Err(Decompress), i;
    }
    assert buf[i..][2..] == buf[i + 2..];
    i := i + 2;
    var matchLen;
    matchLen, i := ReadLength(buf, i, token % 16, 4);
    r := Ok(matchLen);
  }

  /** `lz4_raw_uncompressed_size`. */
  method UncompressedSize(buf: seq<Byte>) returns (r: Result<nat>)
    ensures r == Walk(buf)
  {
    hide LiteralsAt, MatchAt;
    var i: nat, outLen: nat := 0, 0;
    assert buf[0..] == buf;
    while i < |buf|
      invariant i <= |buf| && Walk(buf) == Plus(outLen, Walk(buf[i..]))
      decreases |buf| - i
    {
      var token := buf[i];
      var lit, next := ReadLiterals(buf, i);
      if lit.Err? {
        return Err(lit.error);
      }
      outLen := outLen + lit.value;
      if next == |buf| {
        return Ok(outLen);
      }
      var matchLen;
      matchLen, i := ReadMatch(buf, token, next);
      if matchLen.Err? {
        return Err(matchLen.error);
      }
      outLen := outLen + matchLen.value;
    }
    return Ok(outLen);
  }

  // ----- the block format -----

  /** Literals, then a match of at least four bytes copied from `offset` bytes back. */
  datatype Sequence = Sequence(literals: seq<Byte>, offset: nat, matchLen: nat)

  ghost predicate Encodable(seqs: seq<Sequence>) {
    forall k :: 0 <= k < |seqs| ==> seqs[k].matchLen >= 4 && seqs[k].offset < 0x1_0000
  }

  function Nibble(n: nat): nat {
    Min(n, 15)
  }

  /** The chain of a length of at least 15: as many 0xFF as fit, then the rest. */
  function ChainBytes(n: nat): (r: seq<Byte>)
    decreases n
  {
    if n < 255 then [n] else [0xFF] + ChainBytes(n - 255)
  }

  function LengthBytes(n: nat): seq<Byte> {
    if n < 15 then [] else ChainBytes(n - 15)
  }

  function TokenOf(q: Sequence): (r: Byte)
    requires q.matchLen >= 4
    ensures r / 16 == Nibble(|q.literals|) && r % 16 == Nibble(q.matchLen - 4)
  {
    16 * Nibble(|q.literals|) + Nibble(q.matchLen - 4)
  }

  function SequenceBytes(q: Sequence): seq<Byte>
    requires q.matchLen >= 4 && q.offset < 0x1_0000
  {
    [TokenOf(q)] + LengthBytes(|q.literals|) + q.literals
    + [q.offset % 256, q.offset / 256] + LengthBytes(q.matchLen - 4)
  }

  /** How a buffer can end: with literals and no match, as the format wants it, whatever the low half of
      their token; right behind a match; or inside a match's length chain. */
  datatype Ending =
    | Literals(last: seq<Byte>, low: nat)
    | BehindMatch
    | InsideChain(literals: seq<Byte>, offset: nat, ones: nat)

  function FullBytes(n: nat): (r: seq<Byte>)
    ensures |r| == n
  {
    seq(n, _ => 0xFF)
  }

  predicate EndingOk(e: Ending) {
    match e
    case Literals(_, low) => low < 16
    case BehindMatch => true
    case InsideChain(_, offset, _) => offset < 0x1_0000
  }

  function EndingBytes(e: Ending): seq<Byte>
    requires EndingOk(e)
  {
    match e
    case Literals(last, low) => [16 * Nibble(|last|) + low] + LengthBytes(|last|) + last
    case BehindMatch => []
    case InsideChain(literals, offset, ones) =>
      [16 * Nibble(|literals|) + 15] + LengthBytes(|literals|) + literals + ([offset % 256, offset / 256] + FullBytes(ones))
  }

  function EndingSize(e: Ending): nat {
    match e
    case Literals(last, _) => |last|
    case BehindMatch => 0
    case InsideChain(literals, _, ones) => |literals| + 19 + 255 * ones
  }

  function Block(seqs: seq<Sequence>, e: Ending): seq<Byte>
    requires Encodable(seqs) && EndingOk(e)
    decreases |seqs|
  {
    if seqs == [] then EndingBytes(e) else SequenceBytes(seqs[0]) + Block(seqs[1..], e)
  }

  function BlockSize(seqs: seq<Sequence>, e: Ending): nat {
    if seqs == [] then EndingSize(e) else |seqs[0].literals| + seqs[0].matchLen + BlockSize(seqs[1..], e)
  }

  /** A block as the format wants it: its sequences, then a run of literals without a match. */
  function Serialise(seqs: seq<Sequence>, last: seq<Byte>): seq<Byte>
    requires Encodable(seqs)
  {
    Block(seqs, Literals(last, 0))
  }

  function TotalSize(seqs: seq<Sequence>, last: seq<Byte>): nat {
    BlockSize(seqs, Literals(last, 0))
  }

  lemma {:induction false} ChainRoundTrip(n: nat, rest: seq<Byte>)
    ensures Chain(ChainBytes(n) + rest) == (n, rest)
    decreases n
  {
    if n < 255 {
      assert ([n] + rest)[1..] == rest;
    } else {
      assert ChainBytes(n) + rest == [0xFF] + (ChainBytes(n - 255) + rest);
      ChainRoundTrip(n - 255, rest);
    }
  }

  lemma LengthRoundTrip(n: nat, rest: seq<Byte>)
    ensures Length(Nibble(n), LengthBytes(n) + rest) == (n, rest)
  {
    if n < 15 {
      assert [] + rest == rest;
    } else {
      ChainRoundTrip(n - 15, rest);
    }
  }

  /** A token, its literal length, the literals, and anything after them. */
  lemma WalkLiterals(token: Byte, literals: seq<Byte>, rest: seq<Byte>)
    requires token / 16 == Nibble(|literals|)
    ensures LiteralsAt([token] + LengthBytes(|literals|) + literals + rest) == Ok((|literals|, rest))
  {
    hide Length, LengthBytes, Nibble;
    var s := [token] + LengthBytes(|literals|) + literals + rest;
    assert s[1..] == LengthBytes(|literals|) + (literals + rest);
    LengthRoundTrip(|literals|, literals + rest);
    assert (literals + rest)[|literals|..] == rest;
  }

  lemma WalkMatch(token: Byte, b0: Byte, b1: Byte, matchLen: nat, rest: seq<Byte>)
    requires matchLen >= 4 && token % 16 == Nibble(matchLen - 4)
    ensures MatchAt(token, [b0, b1] + LengthBytes(matchLen - 4) + rest) == Ok((matchLen, rest))
  {
    hide Length, LengthBytes, Nibble;
    var s := [b0, b1] + LengthBytes(matchLen - 4) + rest;
    assert s[2..] == LengthBytes(matchLen - 4) + rest;
    LengthRoundTrip(matchLen - 4, rest);
  }

  /** The walk over a serialised block returns the total of all literal and match lengths, however
      long the length chains are. */
  lemma WalkIsExact(seqs: seq<Sequence>, last: seq<Byte>)
    requires Encodable(seqs)
    ensures Walk(Serialise(seqs, last)) == Ok(TotalSize(seqs, last))
  {
    hide Walk, Block, BlockSize;
    WalkBlock(seqs, Literals(last, 0));
  }

  /** The same for every other ending. */
  lemma {:induction false} WalkBlock(seqs: seq<Sequence>, e: Ending)
    requires Encodable(seqs) && EndingOk(e)
    ensures Walk(Block(seqs, e)) == Ok(BlockSize(seqs, e))
    decreases |seqs|
  {
    hide Walk, SequenceBytes, EndingBytes;
    if seqs == [] {
      WalkEnding(e);
    } else {
      WalkBlock(seqs[1..], e);
      WalkSequence(seqs[0], Block(seqs[1..], e));
    }
  }

  lemma WalkEnding(e: Ending)
    requires EndingOk(e)
    ensures Walk(EndingBytes(e)) == Ok(EndingSize(e))
  {
    hide LiteralsAt, MatchAt, LengthBytes;
    match e
    case Literals(last, low) =>
      var token := 16 * Nibble(|last|) + low;
      WalkLiterals(token, last, []);
      assert [token] + LengthBytes(|last|) + last + [] == EndingBytes(e);
    case BehindMatch =>
    case InsideChain(literals, offset, ones) =>
      var token := 16 * Nibble(|literals|) + 15;
      WalkLiterals(token, literals, [offset % 256, offset / 256] + FullBytes(ones));
      WalkCutChain(token, offset % 256, offset / 256, ones);
  }

  lemma WalkCutChain(token: Byte, b0: Byte, b1: Byte, ones: nat)
    requires token % 16 == 15
    ensures MatchAt(token, [b0, b1] + FullBytes(ones)) == Ok((19 + 255 * ones, []))
  {
    hide Chain, FullBytes;
    assert ([b0, b1] + FullBytes(ones))[2..] == FullBytes(ones);
    CutChain(ones);
  }

  lemma {:induction false} CutChain(ones: nat)
    ensures Chain(FullBytes(ones)) == (255 * ones, [])
  {
    if ones > 0 {
      assert FullBytes(ones)[1..] == FullBytes(ones - 1);
      CutChain(ones - 1);
    }
  }

  // ----- and nothing else is accepted -----

  /** A chain is its length's bytes, or it is cut. */
  lemma {:induction false} ChainOf(s: seq<Byte>) returns (cut: bool)
    ensures !cut ==> s == ChainBytes(Chain(s).0) + Chain(s).1
    ensures cut ==> s == FullBytes(|s|) && Chain(s) == (255 * |s|, [])
  {
    hide ChainBytes, FullBytes;
    ChainUnits(if s == [] then 0 else s[0], Chain(if s == [] then s else s[1..]).0);
    if s == [] {
      cut := true;
    } else if s[0] != 0xFF {
      cut := false;
      assert s == [s[0]] + s[1..];
    } else {
      cut := ChainOf(s[1..]);
      if cut {
        OneMoreFull(s);
      } else {
        Prefixed(s, ChainBytes(Chain(s[1..]).0), Chain(s[1..]).1);
      }
    }
  }

  lemma ChainUnits(b: Byte, n: nat)
    ensures b < 255 ==> ChainBytes(b) == [b]
    ensures ChainBytes(0xFF + n) == [0xFF] + ChainBytes(n)
    ensures FullBytes(0) == []
  {
  }

  lemma OneMoreFull(s: seq<Byte>)
    requires s != [] && s[0] == 0xFF && s[1..] == FullBytes(|s| - 1)
    ensures s == FullBytes(|s|)
  {
    assert s == [s[0]] + s[1..];
  }

  lemma Prefixed(s: seq<Byte>, chain: seq<Byte>, rest: seq<Byte>)
    requires s != [] && s[1..] == chain + rest
    ensures s == [s[0]] + chain + rest
  {
  }

  lemma LengthOf(nibble: nat, s: seq<Byte>)
    requires nibble < 16
    ensures var (n, rest) := Length(nibble, s);
            || (s == LengthBytes(n) + rest && Nibble(n) == nibble)
            || (nibble == 15 && s == FullBytes(|s|) && n == 15 + 255 * |s| && rest == [])
  {
    if nibble == 15 {
      var cut := ChainOf(s);
    } else {
      assert [] + s == s;
    }
  }

  /** A buffer whose walk succeeds is a block: the walk accepts those and nothing else. */
  lemma {:induction false} BlockOf(s: seq<Byte>) returns (seqs: seq<Sequence>, e: Ending)
    requires Walk(s).Ok?
    ensures Encodable(seqs) && EndingOk(e) && s == Block(seqs, e)
    decreases |s|
  {
    hide Walk, LengthBytes, Nibble, SequenceBytes, EndingBytes, Length;
    seqs := [];
    WalkCases(s);
    if s == [] {
      e := BehindMatch;
      EmptyBuffer();
    } else {
      var lit, mid := LiteralsAt(s).value.0, LiteralsAt(s).value.1;
      var literals := LiteralBytes(s);
      if mid == [] {
        e := Literals(literals, s[0] % 16);
        LastBytes(s[0], literals);
      } else {
        var rest := MatchAt(s[0], mid).value.1;
        var offset, cut := MatchBytes(s[0], mid);
        if cut {
          e := InsideChain(literals, offset, |mid| - 2);
          CutBytes(s[0], literals, mid, offset);
        } else {
          var q := Sequence(literals, offset, MatchAt(s[0], mid).value.0);
          var more;
          more, e := BlockOf(rest);
          seqs := [q] + more;
          WholeBytes(s[0], q, mid, rest);
          assert seqs[1..] == more;
        }
      }
    }
  }

  lemma WalkCases(s: seq<Byte>)
    ensures Walk(s).Ok? && s != [] ==> LiteralsAt(s).Ok?
    ensures Walk(s).Ok? && s != [] && LiteralsAt(s).value.1 != [] ==>
              MatchAt(s[0], LiteralsAt(s).value.1).Ok? && Walk(MatchAt(s[0], LiteralsAt(s).value.1).value.1).Ok?
  {
    hide LiteralsAt, MatchAt;
  }

  lemma EmptyBuffer()
    ensures EndingBytes(BehindMatch) == [] && Block([], BehindMatch) == []
  {
  }

  /** The literals behind a token. */
  lemma LiteralBytes(s: seq<Byte>) returns (literals: seq<Byte>)
    requires s != [] && LiteralsAt(s).Ok?
    ensures |literals| == LiteralsAt(s).value.0 && Nibble(|literals|) == s[0] / 16
    ensures s == [s[0]] + LengthBytes(|literals|) + literals + LiteralsAt(s).value.1
  {
    hide LengthBytes, Nibble, Length;
    LengthOf(s[0] / 16, s[1..]);
    var (lit, after) := Length(s[0] / 16, s[1..]);
    literals := after[..lit];
    assert after == literals + after[lit..];
    assert s == [s[0]] + s[1..];
  }

  /** The offset behind the literals, and whether the length chain behind it is cut. */
  lemma MatchBytes(token: Byte, mid: seq<Byte>) returns (offset: nat, cut: bool)
    requires MatchAt(token, mid).Ok?
    ensures |mid| >= 2 && offset < 0x1_0000 && offset % 256 == mid[0] && offset / 256 == mid[1]
    ensures var (matchLen, rest) := MatchAt(token, mid).value;
            && matchLen >= 4
            && (!cut ==> mid == [mid[0], mid[1]] + LengthBytes(matchLen - 4) + rest && Nibble(matchLen - 4) == token % 16)
            && (cut ==> token % 16 == 15 && mid == [mid[0], mid[1]] + FullBytes(|mid| - 2))
  {
    hide LengthBytes, Nibble, Length;
    LengthOf(token % 16, mid[2..]);
    var low: nat, high: nat := mid[0], mid[1];
    offset := low + 256 * high;
    var (extra, rest) := Length(token % 16, mid[2..]);
    cut := !(mid[2..] == LengthBytes(extra) + rest && Nibble(extra) == token % 16);
    assert mid == [mid[0], mid[1]] + mid[2..];
  }

  lemma LastBytes(token: Byte, literals: seq<Byte>)
    requires Nibble(|literals|) == token / 16
    ensures Block([], Literals(literals, token % 16)) == [token] + LengthBytes(|literals|) + literals + []
  {
    hide LengthBytes, Nibble;
    assert 16 * Nibble(|literals|) + token % 16 == token;
  }

  lemma CutBytes(token: Byte, literals: seq<Byte>, mid: seq<Byte>, offset: nat)
    requires Nibble(|literals|) == token / 16 && token % 16 == 15 && |mid| >= 2 && offset < 0x1_0000
    requires mid == [offset % 256, offset / 256] + FullBytes(|mid| - 2)
    ensures Block([], InsideChain(literals, offset, |mid| - 2)) == [token] + LengthBytes(|literals|) + literals + mid
  {
    hide LengthBytes, Nibble;
    assert 16 * Nibble(|literals|) + 15 == token;
  }

  lemma WholeBytes(token: Byte, q: Sequence, mid: seq<Byte>, rest: seq<Byte>)
    requires q.matchLen >= 4 && q.offset < 0x1_0000
    requires Nibble(|q.literals|) == token / 16 && Nibble(q.matchLen - 4) == token % 16
    requires mid == [q.offset % 256, q.offset / 256] + LengthBytes(q.matchLen - 4) + rest
    ensures [token] + LengthBytes(|q.literals|) + q.literals + mid == SequenceBytes(q) + rest
  {
    hide LengthBytes, Nibble;
    assert TokenOf(q) == token;
  }

  lemma {:induction false} OneError(s: seq<Byte>)
    ensures Walk(s).Err? ==> Walk(s) == Err(Decompress)
    decreases |s|
  {
    hide Length;
    if s != [] && LiteralsAt(s).Ok? && LiteralsAt(s).value.1 != [] && MatchAt(s[0], LiteralsAt(s).value.1).Ok? {
      OneError(MatchAt(s[0], LiteralsAt(s).value.1).value.1);
    }
  }

  /** So the walk succeeds on a buffer if and only if it is a block of the format, up to its ending. */
  lemma WalkSucceedsExactly(s: seq<Byte>)
    ensures Walk(s).Ok? <==> exists seqs, e :: Encodable(seqs) && EndingOk(e) && s == Block(seqs, e)
    ensures Walk(s).Err? ==> Walk(s) == Err(Decompress)
  {
    hide Walk, Block;
    OneError(s);
    if Walk(s).Ok? {
      var seqs, e := BlockOf(s);
    } else {
      forall seqs, e | Encodable(seqs) && EndingOk(e) && s == Block(seqs, e)
        ensures false
      {
        WalkBlock(seqs, e);
      }
    }
  }

  /** One sequence in front of the rest of a block. */
  lemma WalkSequence(q: Sequence, tail: seq<Byte>)
    requires q.matchLen >= 4 && q.offset < 0x1_0000
    ensures Walk(SequenceBytes(q) + tail) == Plus(|q.literals| + q.matchLen, Walk(tail))
  {
    hide LiteralsAt, MatchAt, LengthBytes, Nibble;
    var token := TokenOf(q);
    var mid := [q.offset % 256, q.offset / 256] + LengthBytes(q.matchLen - 4) + tail;
    WalkLiterals(token, q.literals, mid);
    WalkMatch(token, q.offset % 256, q.offset / 256, q.matchLen, tail);
    assert SequenceBytes(q) + tail == [token] + LengthBytes(|q.literals|) + q.literals + mid;
  }

  // ----- the bytes a block stands for -----

  /** `len` bytes copied one by one from `offset` back, so a match may overlap its own output. */
  function Copy(out: seq<Byte>, offset: nat, len: nat): (r: seq<Byte>)
    requires 1 <= offset <= |out|
    ensures |r| == |out| + len
    decreases len
  {
    if len == 0 then out else Copy(out + [out[|out| - offset]], offset, len - 1)
  }

  /** Every match starts inside what is already decoded. */
  predicate Decodable(have: nat, seqs: seq<Sequence>)
    decreases |seqs|
  {
    seqs != [] ==>
      && 1 <= seqs[0].offset <= have + |seqs[0].literals|
      && Decodable(have + |seqs[0].literals| + seqs[0].matchLen, seqs[1..])
  }

  function Decompressed(out: seq<Byte>, seqs: seq<Sequence>, last: seq<Byte>): seq<Byte>
    requires Decodable(|out|, seqs)
    decreases |seqs|
  {
    if seqs == [] then out + last
    else Decompressed(Copy(out + seqs[0].literals, seqs[0].offset, seqs[0].matchLen), seqs[1..], last)
  }

  lemma {:induction false} DecompressedLength(out: seq<Byte>, seqs: seq<Sequence>, last: seq<Byte>)
    requires Decodable(|out|, seqs)
    ensures |Decompressed(out, seqs, last)| == |out| + TotalSize(seqs, last)
    decreases |seqs|
  {
    if seqs != [] {
      DecompressedLength(Copy(out + seqs[0].literals, seqs[0].offset, seqs[0].matchLen), seqs[1..], last);
    }
  }

  /** So the size is that of the decompressed bytes. */
  lemma SizeIsDecompressedLength(seqs: seq<Sequence>, last: seq<Byte>)
    requires Encodable(seqs) && Decodable(0, seqs)
    ensures Walk(Serialise(seqs, last)) == Ok(|Decompressed([], seqs, last)|)
  {
    hide Walk, Serialise, Decompressed, TotalSize;
    WalkIsExact(seqs, last);
    DecompressedLength([], seqs, last);
  }
}
