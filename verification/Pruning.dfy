/** Conservative file pruning with per-file key bounds. */
module Pruning {
  import opened Bits
  import opened JsonText
  import opened Extension
  import opened KeyMetadata

  // ----- keys -----

  predicate SameType(a: SummaryKey, b: SummaryKey) {
    (a.I64? && b.I64?) || (a.I32? && b.I32?) || (a.Bytes? && b.Bytes?)
  }

  /** Slices compare byte by byte; a proper prefix comes first. */
  predicate LexLess(a: seq<Byte>, b: seq<Byte>) {
    b != [] && (a == [] || a[0] < b[0] || (a[0] == b[0] && LexLess(a[1..], b[1..])))
  }

  /** `key_lt`; keys of different types are never less. */
  predicate Less(a: SummaryKey, b: SummaryKey) {
    match (a, b)
    case (I64(x), I64(y)) => x < y
    case (I32(x), I32(y)) => x < y
    case (Bytes(x), Bytes(y)) => LexLess(x, y)
    case _ => false
  }

  /** `key_gt`. */
  predicate Greater(a: SummaryKey, b: SummaryKey) {
    Less(b, a)
  }

  /** What the order of byte strings is: a proper prefix, or the smaller byte at the first difference. */
  predicate LexBelow(a: seq<Byte>, b: seq<Byte>, k: nat) {
    && k <= |a| && k < |b| && a[..k] == b[..k]
    && (k == |a| || a[k] < b[k])
  }

  lemma {:induction false} LexMeaning(a: seq<Byte>, b: seq<Byte>)
    ensures LexLess(a, b) <==> exists k: nat :: LexBelow(a, b, k)
  {
    if LexLess(a, b) {
      var k := LexFirst(a, b);
    } else {
      forall k: nat | LexBelow(a, b, k)
        ensures false
      {
        LexFrom(a, b, k);
      }
    }
  }

  lemma {:induction false} LexFirst(a: seq<Byte>, b: seq<Byte>) returns (k: nat)
    requires LexLess(a, b)
    ensures LexBelow(a, b, k)
  {
    if a == [] || a[0] < b[0] {
      k := 0;
    } else {
      var i := LexFirst(a[1..], b[1..]);
      k := i + 1;
      assert a[..k] == [a[0]] + a[1..][..i] && b[..k] == [b[0]] + b[1..][..i];
    }
  }

  lemma {:induction false} LexFrom(a: seq<Byte>, b: seq<Byte>, k: nat)
    requires LexBelow(a, b, k)
    ensures LexLess(a, b)
    decreases k
  {
    if k > 0 {
      assert a[0] == a[..k][0] == b[..k][0] == b[0];
      assert a[1..][..k - 1] == a[..k][1..] && b[1..][..k - 1] == b[..k][1..];
      LexFrom(a[1..], b[1..], k - 1);
    }
  }

  /** Integers compare as numbers; keys of different types are never one below the other. */
  lemma LessMeaning(a: SummaryKey, b: SummaryKey)
    ensures Less(a, b) <==>
              || (a.I64? && b.I64? && a.wide < b.wide)
              || (a.I32? && b.I32? && a.narrow < b.narrow)
              || (a.Bytes? && b.Bytes? && exists k: nat :: LexBelow(a.blob, b.blob, k))
  {
    hide LexLess, LexBelow;
    if a.Bytes? && b.Bytes? {
      LexMeaning(a.blob, b.blob);
    }
  }

  lemma {:induction false} LexTotal(a: seq<Byte>, b: seq<Byte>)
    ensures LexLess(a, b) || LexLess(b, a) || a == b
    ensures !(LexLess(a, b) && LexLess(b, a))
  {
    if a != [] && b != [] && a[0] == b[0] {
      LexTotal(a[1..], b[1..]);
      if a[1..] == b[1..] {
        assert a == [a[0]] + a[1..] && b == [b[0]] + b[1..];
      }
    }
  }

  lemma {:induction false} LexTransitive(a: seq<Byte>, b: seq<Byte>, c: seq<Byte>)
    requires LexLess(a, b) && LexLess(b, c)
    ensures LexLess(a, c)
  {
    if a != [] && a[0] == b[0] == c[0] {
      LexTransitive(a[1..], b[1..], c[1..]);
    }
  }

  lemma LessIrreflexive(k: SummaryKey)
    ensures !Less(k, k)
  {
    hide LexLess;
    if k.Bytes? {
      LexTotal(k.blob, k.blob);
    }
  }

  lemma LessTotal(a: SummaryKey, b: SummaryKey)
    requires SameType(a, b)
    ensures Less(a, b) || Less(b, a) || a == b
    ensures !(Less(a, b) && Less(b, a))
  {
    hide LexLess;
    if a.Bytes? {
      LexTotal(a.blob, b.blob);
    }
  }

  lemma LessTransitive(a: SummaryKey, b: SummaryKey, c: SummaryKey)
    requires Less(a, b) && Less(b, c)
    ensures Less(a, c)
  {
    hide LexLess;
    if a.Bytes? {
      LexTransitive(a.blob, b.blob, c.blob);
    }
  }

  /** `a <= b < c`, or `a < b <= c`, puts `a` below `c`. */
  lemma LessThrough(a: SummaryKey, b: SummaryKey, c: SummaryKey)
    requires SameType(a, b) && SameType(b, c)
    requires (!Less(b, a) && Less(b, c)) || (Less(a, b) && !Less(c, b))
    ensures Less(a, c)
  {
    hide Less;
    LessTotal(a, b);
    LessTotal(b, c);
    if Less(a, b) && Less(b, c) {
      LessTransitive(a, b, c);
    }
  }

  // ----- one summary -----

  /** `could_contain_eq`. */
  function CouldContainEq(s: IndexSummary, key: SummaryKey): Parsed<bool> {
    if s.min.Some? && !SameType(s.min.value, key) then Malformed
    else if s.min.Some? && Less(key, s.min.value) then Parsed(false)
    else if s.max.Some? && !SameType(s.max.value, key) then Malformed
    else if s.max.Some? && Greater(key, s.max.value) then Parsed(false)
    else Parsed(true)
  }

  /** `could_contain_range`. */
  function CouldContainRange(s: IndexSummary, low: Option<SummaryKey>, high: Option<SummaryKey>): Parsed<bool> {
    if high.Some? && s.min.Some? && !SameType(s.min.value, high.value) then Malformed
    else if high.Some? && s.min.Some? && Less(high.value, s.min.value) then Parsed(false)
    else if low.Some? && s.max.Some? && !SameType(s.max.value, low.value) then Malformed
    else if low.Some? && s.max.Some? && Greater(low.value, s.max.value) then Parsed(false)
    else Parsed(true)
  }

  /** Equality is the one-point range, errors included. */
  lemma EqIsRange(s: IndexSummary, key: SummaryKey)
    ensures CouldContainEq(s, key) == CouldContainRange(s, Some(key), Some(key))
  {
    hide Less;
  }

  /** `k` lies within the bounds that are known. */
  predicate Between(lo: Option<SummaryKey>, k: SummaryKey, hi: Option<SummaryKey>) {
    && (lo.Some? ==> SameType(lo.value, k) && !Less(k, lo.value))
    && (hi.Some? ==> SameType(hi.value, k) && !Less(hi.value, k))
  }

  /** No false negative: a summary that bounds a wanted key is never pruned, nor an error. */
  lemma RangeIsSound(s: IndexSummary, low: Option<SummaryKey>, high: Option<SummaryKey>, k: SummaryKey)
    requires Between(s.min, k, s.max) && Between(low, k, high)
    ensures CouldContainRange(s, low, high) == Parsed(true)
  {
    hide Less;
    if high.Some? && s.min.Some? && Less(high.value, s.min.value) {
      LessThrough(k, high.value, s.min.value);
    }
    if low.Some? && s.max.Some? && Less(s.max.value, low.value) {
      LessThrough(s.max.value, low.value, k);
    }
  }

  predicate OfType(k: Option<SummaryKey>, t: SummaryKey) {
    k.Some? ==> SameType(k.value, t)
  }

  predicate InOrder(lo: Option<SummaryKey>, hi: Option<SummaryKey>) {
    lo.Some? && hi.Some? ==> !Less(hi.value, lo.value)
  }

  /** Whichever bounds are known, all of one type and in order: a range is pruned exactly when the
      intervals share no key of the type. */
  lemma PrunedExactlyWhenDisjoint(s: IndexSummary, low: Option<SummaryKey>, high: Option<SummaryKey>, t: SummaryKey)
    requires OfType(s.min, t) && OfType(s.max, t) && OfType(low, t) && OfType(high, t)
    requires InOrder(s.min, s.max) && InOrder(low, high)
    ensures CouldContainRange(s, low, high)
         == Parsed(exists k :: SameType(k, t) && Between(s.min, k, s.max) && Between(low, k, high))
  {
    hide Less;
    if CouldContainRange(s, low, high) == Parsed(true) {
      var k := SharedKey(s, low, high, t);
    } else {
      forall k | SameType(k, t) && Between(s.min, k, s.max) && Between(low, k, high)
        ensures false
      {
        RangeIsSound(s, low, high, k);
      }
    }
  }

  /** The greatest known lower bound, or the least known upper one, or any key. */
  lemma SharedKey(s: IndexSummary, low: Option<SummaryKey>, high: Option<SummaryKey>, t: SummaryKey) returns (k: SummaryKey)
    requires OfType(s.min, t) && OfType(s.max, t) && OfType(low, t) && OfType(high, t)
    requires InOrder(s.min, s.max) && InOrder(low, high) && CouldContainRange(s, low, high) == Parsed(true)
    ensures SameType(k, t) && Between(s.min, k, s.max) && Between(low, k, high)
  {
    hide Less;
    var lower := Later(s.min, low);
    var upper := Earlier(s.max, high);
    k := if lower.Some? then lower.value else if upper.Some? then upper.value else t;
    LessIrreflexive(k);
  }

  lemma Later(a: Option<SummaryKey>, b: Option<SummaryKey>) returns (k: Option<SummaryKey>)
    requires a.Some? && b.Some? ==> SameType(a.value, b.value)
    ensures k == a || k == b
    ensures k.None? ==> a.None? && b.None?
    ensures k.Some? ==> (a.Some? ==> !Less(k.value, a.value)) && (b.Some? ==> !Less(k.value, b.value))
  {
    hide Less;
    if a.Some? && b.Some? {
      LessTotal(a.value, b.value);
    }
    if a.Some? {
      LessIrreflexive(a.value);
    }
    if b.Some? {
      LessIrreflexive(b.value);
    }
    k := if a.None? || (b.Some? && Less(a.value, b.value)) then b else a;
  }

  lemma Earlier(a: Option<SummaryKey>, b: Option<SummaryKey>) returns (k: Option<SummaryKey>)
    requires a.Some? && b.Some? ==> SameType(a.value, b.value)
    ensures k == a || k == b
    ensures k.None? ==> a.None? && b.None?
    ensures k.Some? ==> (a.Some? ==> !Less(a.value, k.value)) && (b.Some? ==> !Less(b.value, k.value))
  {
    hide Less;
    if a.Some? && b.Some? {
      LessTotal(a.value, b.value);
    }
    if a.Some? {
      LessIrreflexive(a.value);
    }
    if b.Some? {
      LessIrreflexive(b.value);
    }
    k := if a.None? || (b.Some? && Less(b.value, a.value)) then b else a;
  }

  /** A query of another type than a bound it meets is an error, and nothing else is. */
  lemma MismatchIsTheOnlyError(s: IndexSummary, key: SummaryKey, t: SummaryKey)
    requires OfType(s.min, t) && OfType(s.max, t)
    ensures CouldContainEq(s, key).Parsed? <==> SameType(t, key) || (s.min.None? && s.max.None?)
    ensures !CouldContainEq(s, key).UnsupportedVersion?
  {
    hide Less;
  }

  // ----- data files -----

  datatype DataFile = DataFile(path: Text, keyMetadata: Option<Text>)

  /** `extract_extension`. */
  function Extract(f: DataFile): Parsed<Option<DataFileExtension>> {
    if f.keyMetadata.None? then Parsed(None) else Decoded(f.keyMetadata.value)
  }

  /** The first summary of that name. */
  function Find(list: seq<IndexSummary>, name: Text): Option<IndexSummary> {
    if list == [] then None else if list[0].name == name then Some(list[0]) else Find(list[1..], name)
  }

  /** Element `i` is the first one of that name. */
  predicate FirstNamed(list: seq<IndexSummary>, name: Text, i: nat) {
    i < |list| && list[i].name == name && forall j :: 0 <= j < i ==> list[j].name != name
  }

  predicate Unnamed(list: seq<IndexSummary>, name: Text) {
    forall j :: 0 <= j < |list| ==> list[j].name != name
  }

  lemma {:induction false} FindMeaning(list: seq<IndexSummary>, name: Text)
    ensures Find(list, name).None? <==> Unnamed(list, name)
    ensures forall i: nat :: FirstNamed(list, name, i) ==> Find(list, name) == Some(list[i])
    ensures Find(list, name).Some? ==> exists i: nat :: FirstNamed(list, name, i)
  {
    if list != [] {
      var rest := list[1..];
      FindMeaning(rest, name);
      if list[0].name == name {
        assert FirstNamed(list, name, 0);
      } else {
        assert forall j :: 0 < j < |list| ==> list[j] == rest[j - 1];
        forall i: nat | FirstNamed(list, name, i)
          ensures Find(list, name) == Some(list[i])
        {
          assert FirstNamed(rest, name, i - 1);
        }
        if Find(rest, name).Some? {
          var i: nat :| FirstNamed(rest, name, i);
          assert FirstNamed(list, name, i + 1);
        }
      }
    }
  }

  /** The summary a file carries for an index, if its metadata can be read. */
  function SummaryOf(f: DataFile, name: Text): Parsed<Option<IndexSummary>> {
    var ext :- Extract(f);
    Parsed(if ext.None? then None else Find(ext.value.summaries, name))
  }

  function Keep(f: DataFile, name: Text, low: Option<SummaryKey>, high: Option<SummaryKey>): Parsed<bool> {
    var s :- SummaryOf(f, name);
    if s.None? then Parsed(true) else CouldContainRange(s.value, low, high)
  }

  function Pruned(files: seq<DataFile>, name: Text, low: Option<SummaryKey>, high: Option<SummaryKey>): Parsed<seq<DataFile>> {
    if files == [] then Parsed([])
    else
      var keep :- Keep(files[0], name, low, high);
      var rest :- Pruned(files[1..], name, low, high);
      Parsed((if keep then [files[0]] else []) + rest)
  }

  /** Files kept so far, in front of what the rest gives. */
  function KeptBefore(kept: seq<DataFile>, rest: Parsed<seq<DataFile>>): Parsed<seq<DataFile>> {
    var more :- rest;
    Parsed(kept + more)
  }

  lemma PruneStep(files: seq<DataFile>, i: nat, name: Text, low: Option<SummaryKey>, high: Option<SummaryKey>, kept: seq<DataFile>)
    requires i < |files|
    ensures var keep := Keep(files[i], name, low, high);
            var here := KeptBefore(kept, Pruned(files[i..], name, low, high));
            if !keep.Parsed? then here == (if keep.Malformed? then Malformed else UnsupportedVersion(keep.version))
            else here == KeptBefore(kept + (if keep.value then [files[i]] else []), Pruned(files[i + 1..], name, low, high))
  {
    hide Keep;
    assert files[i..][1..] == files[i + 1..];
    var keep, rest := Keep(files[i], name, low, high), Pruned(files[i + 1..], name, low, high);
    if keep.Parsed? && rest.Parsed? {
      var head := if keep.value then [files[i]] else [];
      assert kept + (head + rest.value) == kept + head + rest.value;
    }
  }

  /** `prune_data_files_range`. */
  method PruneDataFilesRange(files: seq<DataFile>, name: Text, low: Option<SummaryKey>, high: Option<SummaryKey>)
    returns (r: Parsed<seq<DataFile>>)
    ensures r == Pruned(files, name, low, high)
  {
    hide Pruned, CouldContainRange, Extract;
    var kept := [];
    StartPruning(files, name, low, high);
    for i := 0 to |files|
      invariant Pruned(files, name, low, high) == KeptBefore(kept, Pruned(files[i..], name, low, high))
    {
      PruneStep(files, i, name, low, high, kept);
      var ext :- Extract(files[i]);
      if ext.None? {
        kept := kept + [files[i]];
        continue;
      }
      var summary := Find(ext.value.summaries, name);
      if summary.None? {
        kept := kept + [files[i]];
        continue;
      }
      var could :- CouldContainRange(summary.value, low, high);
      if could {
        kept := kept + [files[i]];
      } else {
        assert kept + [] == kept;
      }
    }
    EndPruning(files, name, low, high, kept);
    return Parsed(kept);
  }

  /** `prune_data_files_eq`: the same files as the range from the key to itself. */
  method PruneDataFilesEq(files: seq<DataFile>, name: Text, key: SummaryKey) returns (r: Parsed<seq<DataFile>>)
    ensures r == Pruned(files, name, Some(key), Some(key))
  {
    hide Pruned, CouldContainRange, CouldContainEq, Extract;
    var kept := [];
    StartPruning(files, name, Some(key), Some(key));
    for i := 0 to |files|
      invariant Pruned(files, name, Some(key), Some(key))
             == KeptBefore(kept, Pruned(files[i..], name, Some(key), Some(key)))
    {
      PruneStep(files, i, name, Some(key), Some(key), kept);
      var ext :- Extract(files[i]);
      if ext.None? {
        kept := kept + [files[i]];
        continue;
      }
      var summary := Find(ext.value.summaries, name);
      if summary.None? {
        kept := kept + [files[i]];
        continue;
      }
      EqIsRange(summary.value, key);
      var could :- CouldContainEq(summary.value, key);
      if could {
        kept := kept + [files[i]];
      } else {
        assert kept + [] == kept;
      }
    }
    EndPruning(files, name, Some(key), Some(key), kept);
    return Parsed(kept);
  }

  lemma StartPruning(files: seq<DataFile>, name: Text, low: Option<SummaryKey>, high: Option<SummaryKey>)
    ensures KeptBefore([], Pruned(files[0..], name, low, high)) == Pruned(files, name, low, high)
  {
    hide Pruned;
    assert files[0..] == files;
    var p := Pruned(files, name, low, high);
    if p.Parsed? {
      assert [] + p.value == p.value;
    }
  }

  lemma EndPruning(files: seq<DataFile>, name: Text, low: Option<SummaryKey>, high: Option<SummaryKey>, kept: seq<DataFile>)
    ensures KeptBefore(kept, Pruned(files[|files|..], name, low, high)) == Parsed(kept)
  {
    assert files[|files|..] == [] && kept + [] == kept;
  }

  // ----- which files are kept -----

  /** A file without metadata of ours is kept; one whose metadata was written from an extension is kept
      or dropped by the first summary of that name, and kept when there is none. */
  lemma KeepMeaning(f: DataFile, name: Text, low: Option<SummaryKey>, high: Option<SummaryKey>)
    ensures f.keyMetadata.None? || !("EMTX" <= f.keyMetadata.value) ==> Keep(f, name, low, high) == Parsed(true)
    ensures forall e: DataFileExtension, i: nat ::
              PlainExtension(e) && f.keyMetadata == Some("EMTX" + ToJson(e)) && FirstNamed(e.summaries, name, i) ==>
                Keep(f, name, low, high) == CouldContainRange(e.summaries[i], low, high)
    ensures forall e: DataFileExtension ::
              PlainExtension(e) && f.keyMetadata == Some("EMTX" + ToJson(e)) && Unnamed(e.summaries, name) ==>
                Keep(f, name, low, high) == Parsed(true)
  {
    hide CouldContainRange, PlainExtension, ToJson, Utf8, FromJson, Find, Unnamed;
    if f.keyMetadata.Some? && !("EMTX" <= f.keyMetadata.value) {
      ForeignMetadata(f.keyMetadata.value);
    }
    forall e: DataFileExtension | PlainExtension(e) && f.keyMetadata == Some("EMTX" + ToJson(e))
      ensures forall i: nat :: FirstNamed(e.summaries, name, i) ==>
                Keep(f, name, low, high) == CouldContainRange(e.summaries[i], low, high)
      ensures Unnamed(e.summaries, name) ==> Keep(f, name, low, high) == Parsed(true)
    {
      WrittenMetadata(e);
      FindMeaning(e.summaries, name);
    }
  }

  predicate PlainExtension(e: DataFileExtension) {
    PlainAscii(e.path) && PlainNames(e.summaries)
  }

  lemma WrittenMetadata(e: DataFileExtension)
    requires PlainExtension(e)
    ensures Decoded("EMTX" + ToJson(e)) == Parsed(Some(e))
  {
    hide ToJson, PlainAscii, PlainNames, Decoded;
    WrapperAsciiRoundTrip(e);
  }

  /** There is a result exactly when no file's test is an error. */
  lemma {:induction false} NoErrorExactly(files: seq<DataFile>, name: Text, low: Option<SummaryKey>, high: Option<SummaryKey>)
    ensures Pruned(files, name, low, high).Parsed? <==> forall i :: 0 <= i < |files| ==> Keep(files[i], name, low, high).Parsed?
  {
    hide Keep;
    if files != [] {
      NoErrorExactly(files[1..], name, low, high);
      assert forall i :: 0 < i < |files| ==> files[i] == files[1..][i - 1];
      if forall i :: 0 <= i < |files| ==> Keep(files[i], name, low, high).Parsed? {
        forall i | 0 <= i < |files[1..]|
          ensures Keep(files[1..][i], name, low, high).Parsed?
        {
          assert files[1..][i] == files[i + 1];
        }
      }
    }
  }

  /** The places of `kept` in `files`, in order. */
  ghost predicate PlacedAt(kept: seq<DataFile>, files: seq<DataFile>, places: seq<nat>) {
    && |places| == |kept|
    && (forall j :: 0 <= j < |places| ==> places[j] < |files| && kept[j] == files[places[j]])
    && (forall j, k :: 0 <= j < k < |places| ==> places[j] < places[k])
  }

  /** The kept files, by their places: exactly those whose test says so, in order. */
  lemma {:induction false} KeptExactly(files: seq<DataFile>, name: Text, low: Option<SummaryKey>, high: Option<SummaryKey>)
    returns (places: seq<nat>)
    requires Pruned(files, name, low, high).Parsed?
    ensures PlacedAt(Pruned(files, name, low, high).value, files, places)
    ensures forall i: nat :: i < |files| ==> (i in places <==> Keep(files[i], name, low, high) == Parsed(true))
  {
    hide Keep, PlacedAt;
    if files == [] {
      places := [];
      NothingPlaced();
    } else {
      var rest := files[1..];
      var later := KeptExactly(rest, name, low, high);
      var kept := Keep(files[0], name, low, high).value;
      places := OnePlaceMore(Pruned(rest, name, low, high).value, files, later, kept);
      forall i: nat | i < |files|
        ensures i in places <==> Keep(files[i], name, low, high) == Parsed(true)
      {
        if i > 0 {
          assert files[i] == rest[i - 1];
        }
      }
    }
  }

  lemma NothingPlaced()
    ensures PlacedAt([], [], [])
  {
  }

  lemma OnePlaceMore(kept: seq<DataFile>, files: seq<DataFile>, later: seq<nat>, first: bool) returns (places: seq<nat>)
    requires files != [] && PlacedAt(kept, files[1..], later)
    ensures PlacedAt((if first then [files[0]] else []) + kept, files, places)
    ensures 0 in places <==> first
    ensures forall i: nat :: i > 0 ==> (i in places <==> i - 1 in later)
  {
    hide PlacedAt;
    var shifted := ShiftPlaces(kept, files, later);
    if first {
      FirstPlace(kept, files, shifted);
      places := [0] + shifted;
    } else {
      assert [] + kept == kept;
      places := shifted;
    }
  }

  lemma ShiftPlaces(kept: seq<DataFile>, files: seq<DataFile>, later: seq<nat>) returns (shifted: seq<nat>)
    requires files != [] && PlacedAt(kept, files[1..], later)
    ensures PlacedAt(kept, files, shifted) && 0 !in shifted
    ensures forall i: nat :: i > 0 ==> (i in shifted <==> i - 1 in later)
  {
    shifted := seq(|later|, j requires 0 <= j < |later| => later[j] + 1);
    forall j | 0 <= j < |shifted|
      ensures shifted[j] < |files| && kept[j] == files[shifted[j]]
    {
      assert files[1..][later[j]] == files[later[j] + 1];
    }
    forall i: nat | i > 0 && i - 1 in later
      ensures i in shifted
    {
      var j :| 0 <= j < |later| && later[j] == i - 1;
      assert shifted[j] == i;
    }
  }

  lemma FirstPlace(kept: seq<DataFile>, files: seq<DataFile>, later: seq<nat>)
    requires files != [] && PlacedAt(kept, files, later) && 0 !in later
    ensures PlacedAt([files[0]] + kept, files, [0] + later)
  {
    var places, all := [0] + later, [files[0]] + kept;
    forall j | 0 <= j < |places|
      ensures places[j] < |files| && all[j] == files[places[j]]
    {
      assert j > 0 ==> places[j] == later[j - 1] && all[j] == kept[j - 1];
    }
    forall j, k | 0 <= j < k < |places|
      ensures places[j] < places[k]
    {
      assert places[k] == later[k - 1] && later[k - 1] in later;
    }
  }

  /** The first test that is an error is the result. */
  lemma {:induction false} FirstErrorWins(files: seq<DataFile>, i: nat, name: Text, low: Option<SummaryKey>, high: Option<SummaryKey>)
    requires i < |files| && !Keep(files[i], name, low, high).Parsed?
    requires forall j :: 0 <= j < i ==> Keep(files[j], name, low, high).Parsed?
    ensures var keep := Keep(files[i], name, low, high);
            Pruned(files, name, low, high) == if keep.Malformed? then Malformed else UnsupportedVersion(keep.version)
    decreases i
  {
    hide Keep;
    if i > 0 {
      assert files[i] == files[1..][i - 1];
      FirstErrorWins(files[1..], i - 1, name, low, high);
    }
  }

  // ----- soundness -----

  /** `a` is `b` with some elements left out, in order. */
  predicate Subsequence(a: seq<DataFile>, b: seq<DataFile>) {
    if b == [] then a == []
    else (a != [] && a[0] == b[0] && Subsequence(a[1..], b[1..])) || Subsequence(a, b[1..])
  }

  /** The first summary of that name in the file's extension, if there is one, really bounds its keys. */
  ghost predicate Honest(f: DataFile, name: Text, keys: set<SummaryKey>) {
    var ext := Extract(f);
    ext.Parsed? && ext.value.Some? ==>
      var list := ext.value.value.summaries;
      forall i: nat, k :: FirstNamed(list, name, i) && k in keys ==> Between(list[i].min, k, list[i].max)
  }

  predicate HasMatch(keys: set<SummaryKey>, low: Option<SummaryKey>, high: Option<SummaryKey>) {
    exists k :: k in keys && Between(low, k, high)
  }

  /** The files that hold a wanted key. */
  function Wanted(files: seq<DataFile>, keys: seq<set<SummaryKey>>, low: Option<SummaryKey>, high: Option<SummaryKey>):
    seq<DataFile>
    requires |keys| == |files|
    decreases |files|
  {
    if files == [] then []
    else (if HasMatch(keys[0], low, high) then [files[0]] else []) + Wanted(files[1..], keys[1..], low, high)
  }

  lemma MatchIsKept(f: DataFile, name: Text, keys: set<SummaryKey>, low: Option<SummaryKey>, high: Option<SummaryKey>)
    requires Honest(f, name, keys) && HasMatch(keys, low, high) && Keep(f, name, low, high).Parsed?
    ensures Keep(f, name, low, high) == Parsed(true)
  {
    hide Between, CouldContainRange, Extract, Find, FirstNamed;
    var ext := Extract(f).value;
    if ext.Some? {
      var list := ext.value.summaries;
      FindMeaning(list, name);
      if Find(list, name).Some? {
        var i: nat :| FirstNamed(list, name, i);
        var k :| k in keys && Between(low, k, high);
        FirstNamedIn(list, name, i);
        RangeIsSound(list[i], low, high, k);
      }
    }
  }

  lemma FirstNamedIn(list: seq<IndexSummary>, name: Text, i: nat)
    requires FirstNamed(list, name, i)
    ensures i < |list|
  {
  }

  /** The result is an order-preserving part of the files and contains every file with a wanted key. */
  lemma {:induction false} PruningIsSound(files: seq<DataFile>, keys: seq<set<SummaryKey>>, name: Text,
                                          low: Option<SummaryKey>, high: Option<SummaryKey>)
    requires |keys| == |files| && forall i :: 0 <= i < |files| ==> Honest(files[i], name, keys[i])
    requires Pruned(files, name, low, high).Parsed?
    ensures Subsequence(Wanted(files, keys, low, high), Pruned(files, name, low, high).value)
    ensures Subsequence(Pruned(files, name, low, high).value, files)
    decreases |files|
  {
    hide Honest, HasMatch, Keep;
    if files != [] {
      forall i | 0 <= i < |files| - 1
        ensures Honest(files[1..][i], name, keys[1..][i])
      {
        assert Honest(files[i + 1], name, keys[i + 1]);
      }
      PruningIsSound(files[1..], keys[1..], name, low, high);
      var kept := Pruned(files[1..], name, low, high).value;
      var wanted := Wanted(files[1..], keys[1..], low, high);
      if HasMatch(keys[0], low, high) {
        MatchIsKept(files[0], name, keys[0], low, high);
      }
      hide Pruned, Wanted;
      SubsequenceCons(files[0], wanted, kept);
      SubsequenceCons(files[0], kept, files[1..]);
      assert [files[0]] + files[1..] == files;
      assert [] + wanted == wanted && [] + kept == kept;
    }
  }

  lemma SubsequenceCons(f: DataFile, a: seq<DataFile>, b: seq<DataFile>)
    requires Subsequence(a, b)
    ensures Subsequence([f] + a, [f] + b) && Subsequence(a, [f] + b)
  {
    assert ([f] + a)[1..] == a && ([f] + b)[1..] == b;
  }
}
