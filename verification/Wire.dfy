/** The byte cursor and the LEB128 and zigzag readers shared by all decoders. */
module Wire {
  import opened Bits

  datatype CodecError =
    | UnexpectedEof(needed: nat, remaining: nat)
    | VarintOverflow
    | BitWidthOutOfRange(width: nat)
    | EmptyDictPageBody
    | DictIndexOutOfRange(index: nat, dictSize: nat)
    | Decompress
    | InvalidInput

  datatype Result<+T> = Ok(value: T) | Err(error: CodecError) {
    predicate IsFailure() {
      Err?
    }

    function PropagateFailure<U>(): Result<U>
      requires Err?
    {
      Err(error)
    }

    function Extract(): T
      requires Ok?
    {
      value
    }
  }

  /** The outcome of a decoder that appends to a caller's vector. */
  datatype Outcome = Pass | Fail(error: CodecError) {
    predicate IsFailure() {
      Fail?
    }

    function PropagateFailure(): Outcome
      requires Fail?
    {
      this
    }
  }

  function Status<T>(r: Result<T>): Outcome {
    match r
    case Ok(_) => Pass
    case Err(e) => Fail(e)
  }

  /** Elements already produced, in front of what the rest of the input gives. */
  function Prepend<T>(done: seq<T>, rest: Result<seq<T>>): Result<seq<T>> {
    match rest
    case Ok(v) => Ok(done + v)
    case Err(e) => Err(e)
  }

  lemma PrependNothing<T>(rest: Result<seq<T>>)
    ensures Prepend([], rest) == rest
  {
    if rest.Ok? {
      assert [] + rest.value == rest.value;
    }
  }

  lemma PrependTwice<T>(a: seq<T>, b: seq<T>, rest: Result<seq<T>>)
    ensures Prepend(a, Prepend(b, rest)) == Prepend(a + b, rest)
  {
    if rest.Ok? {
      assert a + (b + rest.value) == (a + b) + rest.value;
    }
  }

  function First<T>(r: Result<(T, nat)>): Result<T> {
    match r
    case Ok((v, _)) => Ok(v)
    case Err(e) => Err(e)
  }

  // ----- what the readers mean, as functions of a buffer and a position -----

  function TakeAt(buf: seq<Byte>, pos: nat, n: nat): (r: Result<seq<Byte>>)
    requires pos <= |buf|
    ensures r.Ok? <==> n <= |buf| - pos
    ensures r.Ok? ==> |r.value| == n && buf[..pos] + r.value <= buf
  {
    if |buf| - pos < n then Err(UnexpectedEof(n, |buf| - pos)) else Ok(buf[pos..pos + n])
  }

  /** An unsigned LEB128 number of at most `left` bytes, and its length: seven bits a byte, least
      significant group first, continuation while the top bit is set. */
  function Leb128(buf: seq<Byte>, pos: nat, left: nat): (r: Result<(nat, nat)>)
    requires pos <= |buf|
    ensures r.Ok? ==> 1 <= r.value.1 <= left && pos + r.value.1 <= |buf|
    decreases left, pos
  {
    if left == 0 then Err(VarintOverflow)
    else if pos == |buf| then Err(UnexpectedEof(1, 0))
    else if buf[pos] < 128 then Ok((buf[pos], 1))
    else
      var (v, len) :- Leb128(buf, pos + 1, left - 1);
      Ok((buf[pos] % 128 + 128 * v, len + 1))
  }

  /** The value kept in a `u64` and the position after it. */
  function UvarintAt(buf: seq<Byte>, pos: nat): (r: Result<(nat, nat)>)
    requires pos <= |buf|
    ensures r.Ok? ==> pos < r.value.1 <= |buf|
  {
    var (v, len) :- Leb128(buf, pos, 10);
    Ok((Low(v, 64), pos + len))
  }

  /** Zigzag: 0, 1, 2, 3, ... stand for 0, -1, 1, -2, ... */
  function Unzigzag(u: nat): int {
    if u % 2 == 0 then u / 2 else -(u / 2) - 1
  }

  function Zigzag(v: int): nat {
    if v >= 0 then 2 * v else -2 * v - 1
  }

  lemma ZigzagRoundTrip(v: int, u: nat)
    ensures Unzigzag(Zigzag(v)) == v
    ensures Zigzag(Unzigzag(u)) == u
  {
  }

  /** Even numbers stand for the naturals, odd ones for the negative numbers. */
  lemma ZigzagMeaning(m: nat)
    ensures Unzigzag(2 * m) == m && Unzigzag(2 * m + 1) == -(m as int) - 1
  {
  }

  /** Both readers go through an unsigned varint; the 32-bit one keeps its low 32 bits. */
  function ZigzagAt(buf: seq<Byte>, pos: nat, width: nat): (r: Result<(int, nat)>)
    requires pos <= |buf|
    ensures r.Ok? ==> pos < r.value.1 <= |buf|
  {
    var (u, next) :- UvarintAt(buf, pos);
    Ok((Unzigzag(Low(u, width)), next))
  }

  // ----- the varint loop -----

  /** The number read so far, `acc` in its low `7 * i` bits, completed by the rest of the input. */
  function Resume(acc: nat, i: nat, rest: Result<(nat, nat)>): Result<(nat, nat)> {
    match rest
    case Err(e) => Err(e)
    case Ok((v, len)) => Ok((acc + Up(v, 7 * i), i + len))
  }

  lemma ResumeStep(acc: nat, b: nat, i: nat, rest: Result<(nat, nat)>)
    ensures Resume(acc, i, if rest.Ok? then Ok((b + 128 * rest.value.0, rest.value.1 + 1)) else rest)
         == Resume(acc + Up(b, 7 * i), i + 1, rest)
  {
    if rest.Ok? {
      var v := rest.value.0;
      UpSum(b, 128 * v, 7 * i);
      Septet(v);
      UpAdd(v, 7, 7 * i);
    }
  }

  lemma Septet(x: nat)
    ensures Mask(7) == 0x7F && Up(x, 7) == 128 * x
  {
    MaskByte(0);
    UpByte(x);
  }

  lemma ContinuationBit(b: Byte)
    ensures And(b, 0x7F) == b % 128
    ensures And(b, 0x80) == 0 <==> b < 128
  {
    hide And, Low, Up, Shr, Mask;
    var x, y := b % 128, b / 128;
    Septet(y);
    Septet(1);
    AndMask(b, 7);
    LowIgnoresHigh(x, y, 7, 7);
    LowFits(x, 7);
    AndBit(b, 7);
    ShrSplit(x, y, 7);
    Septet(y % 2);
  }

  /** OR-ing group `i` into a `u64` adds it and keeps 64 bits; only the tenth group can be cut. */
  lemma AppendGroup(acc: nat, b: nat, i: nat)
    requires i < 10 && b <= Mask(7) && acc <= Mask(7 * i)
    ensures Or(acc, Shl(b, 7 * i, 64)) == Low(acc + Up(b, 7 * i), 64)
    ensures i < 9 ==> Or(acc, Shl(b, 7 * i, 64)) == acc + Up(b, 7 * i) <= Mask(7 * (i + 1))
  {
    hide Low, Or, Up, Mask;
    if i < 9 {
      UpBound(b, 7, 7 * i);
      ShlFits(b, 7, 7 * i, 64);
      OrDisjoint(acc, b, 7 * i);
      MaskMono(7 * i + 7, 64);
      LowFits(acc + Up(b, 7 * i), 64);
    } else {
      LowSplit(acc, b, 63, 1);
      MaskMono(0, 63);
      LowSplit(0, b, 63, 1);
      OrDisjoint(acc, Low(b, 1), 63);
    }
  }

  ghost predicate InProgress(buf: seq<Byte>, start: nat, i: nat, acc: nat) {
    && i < 10
    && start + i <= |buf|
    && acc <= Mask(7 * i)
    && Leb128(buf, start, 10) == Resume(acc, i, Leb128(buf, start + i, 10 - i))
  }

  lemma UvarintStep(buf: seq<Byte>, start: nat, i: nat, acc: nat)
    requires InProgress(buf, start, i, acc) && start + i < |buf|
    ensures var b := buf[start + i];
            var next := Or(acc, Shl(And(b, 0x7F), 7 * i, 64));
            && (And(b, 0x80) == 0 ==> UvarintAt(buf, start) == Ok((next, start + i + 1)))
            && (And(b, 0x80) != 0 && i < 9 ==> InProgress(buf, start, i + 1, next))
            && (And(b, 0x80) != 0 && i == 9 ==> UvarintAt(buf, start) == Err(VarintOverflow))
  {
    hide And, Or, Low, Up, Mask, Shl, Leb128;
    var b := buf[start + i];
    ContinuationBit(b);
    Septet(0);
    AppendGroup(acc, b % 128, i);
    LebUnfold(buf, start + i, 10 - i);
    if b >= 128 {
      ResumeStep(acc, b % 128, i, Leb128(buf, start + i + 1, 9 - i));
      LebUnfold(buf, start + i + 1, 9 - i);
    }
  }

  lemma LebUnfold(buf: seq<Byte>, pos: nat, left: nat)
    requires pos <= |buf|
    ensures left == 0 ==> Leb128(buf, pos, left) == Err(VarintOverflow)
    ensures left > 0 && pos < |buf| && buf[pos] < 128 ==> Leb128(buf, pos, left) == Ok((buf[pos] as nat, 1))
    ensures left > 0 && pos < |buf| && buf[pos] >= 128 ==>
              Leb128(buf, pos, left) == var rest := Leb128(buf, pos + 1, left - 1);
                                        if rest.Ok? then Ok((buf[pos] % 128 + 128 * rest.value.0, rest.value.1 + 1))
                                        else rest
  {
  }

  // ----- what a varint stands for -----

  /** Groups of seven bits as bytes, the continuation bit on all but the last. */
  function LebGroups(groups: seq<Byte>): (r: seq<Byte>)
    requires forall i :: 0 <= i < |groups| ==> groups[i] < 128
    ensures |r| == |groups|
  {
    if |groups| <= 1 then groups else [groups[0] + 128] + LebGroups(groups[1..])
  }

  function GroupsValue(groups: seq<Byte>): nat {
    if groups == [] then 0 else groups[0] + 128 * GroupsValue(groups[1..])
  }

  /** One to ten groups are read whole, redundant ones included; 64 bits of their number are kept. */
  lemma UvarintMeaning(pre: seq<Byte>, groups: seq<Byte>, rest: seq<Byte>)
    requires 0 < |groups| <= 10 && forall i :: 0 <= i < |groups| ==> groups[i] < 128
    ensures UvarintAt(pre + LebGroups(groups) + rest, |pre|) == Ok((Low(GroupsValue(groups), 64), |pre| + |groups|))
  {
    hide Leb128, Low, LebGroups, GroupsValue;
    GroupsRead(pre, groups, rest, 10);
  }

  lemma {:induction false} GroupsRead(pre: seq<Byte>, groups: seq<Byte>, rest: seq<Byte>, left: nat)
    requires 0 < |groups| <= left && forall i :: 0 <= i < |groups| ==> groups[i] < 128
    ensures Leb128(pre + LebGroups(groups) + rest, |pre|, left) == Ok((GroupsValue(groups), |groups|))
    decreases |groups|
  {
    var buf := pre + LebGroups(groups) + rest;
    assert buf[|pre|] == LebGroups(groups)[0];
    LebUnfold(buf, |pre|, left);
    if |groups| > 1 {
      var front := pre + [groups[0] + 128];
      assert buf == front + LebGroups(groups[1..]) + rest;
      GroupsRead(front, groups[1..], rest, left - 1);
    } else {
      assert groups[1..] == [];
    }
  }

  /** Ten continuation bytes are too many; fewer at the end of the buffer are cut short. */
  lemma UvarintErrors(buf: seq<Byte>, pos: nat, n: nat)
    requires pos + n <= |buf| && (forall i :: pos <= i < pos + n ==> buf[i] >= 128)
    ensures n == 10 ==> UvarintAt(buf, pos) == Err(VarintOverflow)
    ensures n < 10 && pos + n == |buf| ==> UvarintAt(buf, pos) == Err(UnexpectedEof(1, 0))
  {
    hide Leb128;
    if n <= 10 {
      OnlyContinued(buf, pos, n, 10);
    }
  }

  lemma {:induction false} OnlyContinued(buf: seq<Byte>, pos: nat, n: nat, left: nat)
    requires n <= left && pos + n <= |buf| && (forall i :: pos <= i < pos + n ==> buf[i] >= 128)
    ensures n == left ==> Leb128(buf, pos, left) == Err(VarintOverflow)
    ensures n < left && pos + n == |buf| ==> Leb128(buf, pos, left) == Err(UnexpectedEof(1, 0))
    decreases n
  {
    if n > 0 {
      OnlyContinued(buf, pos + 1, n - 1, left - 1);
    }
  }

  // ----- a varint reads the same wherever it lies -----

  /** `p` is the part of `q` that starts at `off`. */
  ghost predicate Inside(p: seq<Byte>, q: seq<Byte>, off: nat) {
    off + |p| <= |q| && q[off..off + |p|] == p
  }

  lemma InsideAt(p: seq<Byte>, q: seq<Byte>, off: nat, i: nat)
    requires Inside(p, q, off) && i < |p|
    ensures off + i < |q| && q[off + i] == p[i]
  {
    assert q[off..off + |p|][i] == p[i];
  }

  lemma {:induction false} LebLocal(p: seq<Byte>, pos: nat, q: seq<Byte>, off: nat, left: nat)
    requires Inside(p, q, off) && pos <= |p| && Leb128(p, pos, left).Ok?
    ensures Leb128(q, off + pos, left) == Leb128(p, pos, left)
    decreases left
  {
    if left > 0 && pos < |p| {
      InsideAt(p, q, off, pos);
      if p[pos] >= 128 {
        LebLocal(p, pos + 1, q, off, left - 1);
        assert off + (pos + 1) == off + pos + 1;
      }
    }
  }

  lemma UvarintLocal(p: seq<Byte>, pos: nat, q: seq<Byte>, off: nat)
    requires Inside(p, q, off) && pos <= |p| && UvarintAt(p, pos).Ok?
    ensures UvarintAt(q, off + pos) == Ok((UvarintAt(p, pos).value.0, off + UvarintAt(p, pos).value.1))
  {
    hide Leb128, Low;
    LebLocal(p, pos, q, off, 10);
  }

  // ----- the cursor -----

  class Cursor {
    const buf: seq<Byte>
    var pos: nat

    ghost predicate Valid()
      reads this
    {
      pos <= |buf|
    }

    constructor (buf: seq<Byte>)
      ensures this.buf == buf && pos == 0 && Valid()
    {
      this.buf := buf;
      pos := 0;
    }

    method ReadU8() returns (r: Result<Byte>)
      requires Valid()
      modifies this
      ensures Valid()
      ensures old(pos) < |buf| ==> r == Ok(buf[old(pos)]) && pos == old(pos) + 1
      ensures old(pos) == |buf| ==> r == Err(UnexpectedEof(1, 0)) && pos == old(pos)
    {
      if pos >= |buf| {
        return Err(UnexpectedEof(1, 0));
      }
      var b := buf[pos];
      pos := pos + 1;
      return Ok(b);
    }

    method Take(n: nat) returns (r: Result<seq<Byte>>)
      requires Valid()
      modifies this
      ensures Valid() && r == TakeAt(buf, old(pos), n)
      ensures pos == if r.Ok? then old(pos) + n else old(pos)
    {
      if |buf| - pos < n {
        return Err(UnexpectedEof(n, |buf| - pos));
      }
      r := Ok(buf[pos..pos + n]);
      pos := pos + n;
    }

    method ReadUvarint() returns (r: Result<nat>)
      requires Valid()
      modifies this
      ensures Valid()
      ensures r == First(UvarintAt(buf, old(pos)))
      ensures r.Ok? ==> pos == UvarintAt(buf, old(pos)).value.1
    {
      var result: nat, shift: nat := 0, 0;
      ghost var start := pos;
      for i := 0 to 10
        invariant Valid() && shift == 7 * i && pos == start + i
        invariant i < 10 ==> InProgress(buf, start, i, result)
        invariant i == 10 ==> UvarintAt(buf, start) == Err(VarintOverflow)
      {
        var b :- ReadU8();
        UvarintStep(buf, start, i, result);
        result := Or(result, Shl(And(b, 0x7F), shift, 64));
        if And(b, 0x80) == 0 {
          return Ok(result);
        }
        shift := shift + 7;
      }
      return Err(VarintOverflow);
    }

    method ReadZigzagI32() returns (r: Result<int>)
      requires Valid()
      modifies this
      ensures Valid()
      ensures r == First(ZigzagAt(buf, old(pos), 32))
      ensures r.Ok? ==> pos == ZigzagAt(buf, old(pos), 32).value.1
    {
      var u :- ReadUvarint();
      return Ok(Unzigzag(Low(u, 32)));
    }

    method ReadZigzagI64() returns (r: Result<int>)
      requires Valid()
      modifies this
      ensures Valid()
      ensures r == First(ZigzagAt(buf, old(pos), 64))
      ensures r.Ok? ==> pos == ZigzagAt(buf, old(pos), 64).value.1
    {
      var u :- ReadUvarint();
      LowBound(Leb128(buf, old(pos), 10).value.0, 64);
      LowFits(u, 64);
      return Ok(Unzigzag(u));
    }
  }
}
