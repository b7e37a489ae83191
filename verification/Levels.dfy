/** `compute_max_levels`: a stack machine over a schema flattened depth first, and the tree recursion
    it must match. */
module Levels {
  import opened Wire

  datatype Repetition = Absent | Required | Optional | Repeated

  datatype Children = Unset | Count(n: int)

  datatype Element = Element(rep: Repetition, children: Children)

  function ChildCount(e: Element): int {
    if e.children.Unset? then 0 else e.children.n
  }

  /** `remaining` children of a group are still to come; levels are `u16`. */
  datatype Frame = Frame(rep: nat, def: nat, remaining: int)

  function U16(v: nat): nat {
    v % 0x1_0000
  }

  function NextRep(rep: nat, r: Repetition): nat {
    if r == Repeated then U16(rep + 1) else rep
  }

  function NextDef(def: nat, r: Repetition): nat {
    if r == Optional || r == Repeated then U16(def + 1) else def
  }

  /** Pop finished groups, never the root frame. */
  function Unwind(stack: seq<Frame>): (r: seq<Frame>)
    requires stack != []
    ensures r != []
    decreases |stack|
  {
    var top := stack[|stack| - 1];
    if top.remaining <= 0 && |stack| > 1 then
      var parent := stack[|stack| - 2];
      Unwind(stack[..|stack| - 2] + [parent.(remaining := parent.remaining - 1)])
    else stack
  }

  function FinishLeaf(stack: seq<Frame>): (r: seq<Frame>)
    requires stack != []
    ensures r != []
  {
    var top := stack[|stack| - 1];
    Unwind(stack[..|stack| - 1] + [top.(remaining := top.remaining - 1)])
  }

  /** The scan of the elements after the root. */
  function Scan(elements: seq<Element>, stack: seq<Frame>, leafCount: nat, leafIndex: nat): Result<(nat, nat)>
    requires stack != []
    decreases |elements|
  {
    if elements == [] then Err(InvalidInput)
    else
      var e, top := elements[0], stack[|stack| - 1];
      var rep, def := NextRep(top.rep, e.rep), NextDef(top.def, e.rep);
      if ChildCount(e) != 0 then
        Scan(elements[1..], stack + [Frame(rep, def, ChildCount(e))], leafCount, leafIndex)
      else if leafCount == leafIndex then Ok((rep, def))
      else Scan(elements[1..], FinishLeaf(stack), leafCount + 1, leafIndex)
  }

  function MaxLevels(schema: seq<Element>, leafIndex: nat): Result<(nat, nat)> {
    if schema == [] || ChildCount(schema[0]) <= 0 then Err(InvalidInput)
    else Scan(schema[1..], [Frame(0, 0, ChildCount(schema[0]))], 0, leafIndex)
  }

  /** `compute_max_levels`. */
  method ComputeMaxLevels(schema: seq<Element>, leafIndex: nat) returns (r: Result<(nat, nat)>)
    ensures r == MaxLevels(schema, leafIndex)
  {
    hide Unwind;
    if schema == [] {
      return Err(InvalidInput);
    }
    var rootChildren := ChildCount(schema[0]);
    if rootChildren <= 0 {
      return Err(InvalidInput);
    }
    var stack := [Frame(0, 0, rootChildren)];
    var leafCount := 0;
    var i := 1;
    while i < |schema|
      invariant 1 <= i <= |schema| && stack != []
      invariant MaxLevels(schema, leafIndex) == Scan(schema[i..], stack, leafCount, leafIndex)
    {
      var el := schema[i];
      assert schema[i..][0] == el && schema[i..][1..] == schema[i + 1..];
      var top := stack[|stack| - 1];
      var thisRep, thisDef := NextRep(top.rep, el.rep), NextDef(top.def, el.rep);
      var children := ChildCount(el);
      if children == 0 {
        if leafCount == leafIndex {
          return Ok((thisRep, thisDef));
        }
        leafCount := leafCount + 1;
        ghost var before := stack;
        stack := stack[..|stack| - 1] + [top.(remaining := top.remaining - 1)];
        stack := PopFinished(stack);
        assert stack == FinishLeaf(before);
      } else {
        stack := stack + [Frame(thisRep, thisDef, children)];
      }
      i := i + 1;
    }
    return Err(InvalidInput);
  }

  /** The unwinding loop. */
  method PopFinished(stack0: seq<Frame>) returns (stack: seq<Frame>)
    requires stack0 != []
    ensures stack == Unwind(stack0)
  {
    stack := stack0;
    while stack[|stack| - 1].remaining <= 0 && |stack| > 1
      invariant stack != [] && Unwind(stack) == Unwind(stack0)
      decreases |stack|
    {
      ghost var before := stack;
      stack := stack[..|stack| - 1];
      var parent := stack[|stack| - 1];
      assert stack[..|stack| - 1] == before[..|before| - 2];
      stack := stack[..|stack| - 1] + [parent.(remaining := parent.remaining - 1)];
    }
  }

  // ----- schema trees -----

  /** A non-empty list of siblings; a group holds one. `zero` tells a leaf that states zero children
      from one that leaves the count out. */
  datatype Node =
    | Leaf(rep: Repetition, zero: bool)
    | Group(rep: Repetition, members: Forest)
  datatype Forest =
    | Last(node: Node)
    | More(node: Node, rest: Forest)

  function Siblings(f: Forest): nat {
    match f
    case Last(_) => 1
    case More(_, rest) => 1 + Siblings(rest)
  }

  function Leaves(f: Forest): nat {
    match f
    case Last(node) => NodeLeaves(node)
    case More(node, rest) => NodeLeaves(node) + Leaves(rest)
  }

  function NodeLeaves(n: Node): nat {
    match n
    case Leaf(_, _) => 1
    case Group(_, members) => Leaves(members)
  }

  /** Depth-first flattening. */
  function Flat(f: Forest): seq<Element> {
    match f
    case Last(node) => FlatNode(node)
    case More(node, rest) => FlatNode(node) + Flat(rest)
  }

  function FlatNode(n: Node): seq<Element> {
    match n
    case Leaf(rep, zero) => [Element(rep, if zero then Count(0) else Unset)]
    case Group(rep, members) => [Element(rep, Count(Siblings(members)))] + Flat(members)
  }

  /** The repetitions on the way from the top to leaf `k`. */
  function Path(f: Forest, k: nat): seq<Repetition>
    requires k < Leaves(f)
    decreases f
  {
    match f
    case Last(node) => NodePath(node, k)
    case More(node, rest) => if k < NodeLeaves(node) then NodePath(node, k) else Path(rest, k - NodeLeaves(node))
  }

  function NodePath(n: Node, k: nat): seq<Repetition>
    requires k < NodeLeaves(n)
    decreases n
  {
    match n
    case Leaf(rep, _) => [rep]
    case Group(rep, members) => [rep] + Path(members, k)
  }

  function Depth(f: Forest): nat {
    match f
    case Last(node) => NodeDepth(node)
    case More(node, rest) => if NodeDepth(node) >= Depth(rest) then NodeDepth(node) else Depth(rest)
  }

  function NodeDepth(n: Node): nat {
    match n
    case Leaf(_, _) => 1
    case Group(_, members) => 1 + Depth(members)
  }

  function CountRepeated(path: seq<Repetition>): nat {
    if path == [] then 0 else (if path[0] == Repeated then 1 else 0) + CountRepeated(path[1..])
  }

  function CountNullable(path: seq<Repetition>): nat {
    if path == [] then 0
    else (if path[0] == Repeated || path[0] == Optional then 1 else 0) + CountNullable(path[1..])
  }

  // ----- the machine on a flattened tree -----

  /** Room for `depth` more levels in 16 bits. */
  ghost predicate Fits(top: Frame, depth: nat) {
    top.rep + depth < 0x1_0000 && top.def + depth < 0x1_0000
  }

  function Sum(top: Frame, path: seq<Repetition>): (nat, nat) {
    (top.rep + CountRepeated(path), top.def + CountNullable(path))
  }

  /** The frame stack with `m` of the top group's children finished. */
  function After(below: seq<Frame>, top: Frame, m: nat): seq<Frame> {
    Unwind(below + [top.(remaining := top.remaining - m)])
  }

  lemma AfterRoom(below: seq<Frame>, top: Frame, m: nat)
    requires top.remaining > m
    ensures After(below, top, m) == below + [top.(remaining := top.remaining - m)]
  {
  }

  /** A finished group pops its frame and counts as one finished child of its parent. */
  lemma AfterGroup(below: seq<Frame>, top: Frame, child: Frame)
    requires child.remaining >= 0
    ensures After(below + [top], child, child.remaining) == After(below, top, 1)
  {
    var s := below + [top] + [child.(remaining := 0)];
    assert s[|s| - 2] == top && s[..|s| - 2] == below;
  }

  /** Scanning a forest under `top`: it either contains the wanted leaf, and its levels come out, or
      it is passed over and all its siblings are counted as finished. */
  lemma {:induction false} ScanForest(f: Forest, rest: seq<Element>, below: seq<Frame>, top: Frame, c: nat, k: nat)
    requires top.remaining >= Siblings(f) && Fits(top, Depth(f)) && c <= k
    ensures Scan(Flat(f) + rest, below + [top], c, k)
         == if k - c < Leaves(f) then Ok(Sum(top, Path(f, k - c)))
            else Scan(rest, After(below, top, Siblings(f)), c + Leaves(f), k)
    decreases f
  {
    hide Unwind, Scan, After, CountRepeated, CountNullable;
    match f
    case Last(node) =>
      ScanNode(node, rest, below, top, c, k);
    case More(node, others) =>
      assert Flat(f) + rest == FlatNode(node) + (Flat(others) + rest);
      ScanNode(node, Flat(others) + rest, below, top, c, k);
      if k - c >= NodeLeaves(node) {
        AfterRoom(below, top, 1);
        var next := top.(remaining := top.remaining - 1);
        ScanForest(others, rest, below, next, c + NodeLeaves(node), k);
        AfterShift(below, top, Siblings(others));
      }
  }

  lemma AfterShift(below: seq<Frame>, top: Frame, m: nat)
    ensures After(below, top.(remaining := top.remaining - 1), m) == After(below, top, 1 + m)
  {
  }

  lemma {:induction false} ScanNode(n: Node, rest: seq<Element>, below: seq<Frame>, top: Frame, c: nat, k: nat)
    requires top.remaining >= 1 && Fits(top, NodeDepth(n)) && c <= k
    ensures Scan(FlatNode(n) + rest, below + [top], c, k)
         == if k - c < NodeLeaves(n) then Ok(Sum(top, NodePath(n, k - c)))
            else Scan(rest, After(below, top, 1), c + NodeLeaves(n), k)
    decreases n
  {
    hide Unwind, After, FinishLeaf, CountRepeated, CountNullable;
    var elements, stack := FlatNode(n) + rest, below + [top];
    assert stack[|stack| - 1] == top && stack[..|stack| - 1] == below;
    var rep, def := NextRep(top.rep, n.rep), NextDef(top.def, n.rep);
    match n
    case Leaf(r, _) =>
      assert elements[1..] == rest;
      OneStep(top, [r]);
      FinishIsAfter(below, top);
    case Group(r, members) =>
      assert elements[1..] == Flat(members) + rest;
      var child := Frame(rep, def, Siblings(members));
      ScanForest(members, rest, stack, child, c, k);
      AfterGroup(below, top, child);
      if k - c < Leaves(members) {
        OneStep(top, [r] + Path(members, k - c));
      }
  }

  lemma FinishIsAfter(below: seq<Frame>, top: Frame)
    ensures FinishLeaf(below + [top]) == After(below, top, 1)
  {
    assert (below + [top])[..|below|] == below;
  }

  /** The first node on a path adds its own levels. */
  lemma OneStep(top: Frame, path: seq<Repetition>)
    requires path != [] && Fits(top, 1)
    ensures Sum(top, path) == Sum(Frame(NextRep(top.rep, path[0]), NextDef(top.def, path[0]), 0), path[1..])
    ensures |path| == 1 ==> Sum(top, path) == (NextRep(top.rep, path[0]), NextDef(top.def, path[0]))
  {
  }

  /** The stack machine equals the tree recursion: on any flattened tree less than 65536 deep it
      returns the number of repeated, and of repeated or optional, nodes on the path to leaf `k`,
      and it fails exactly when there is no such leaf. */
  lemma MachineIsRecursion(root: Repetition, f: Forest, k: nat)
    requires Depth(f) < 0x1_0000
    ensures MaxLevels([Element(root, Count(Siblings(f)))] + Flat(f), k)
         == if k < Leaves(f) then Ok((CountRepeated(Path(f, k)), CountNullable(Path(f, k)))) else Err(InvalidInput)
  {
    hide Unwind;
    var schema := [Element(root, Count(Siblings(f)))] + Flat(f);
    assert schema[1..] == Flat(f) + [];
    var top := Frame(0, 0, Siblings(f));
    assert [] + [top] == [top];
    SiblingsPositive(f);
    ScanForest(f, [], [], top, 0, k);
  }

  lemma SiblingsPositive(f: Forest)
    ensures Siblings(f) >= 1
  {
  }

  // ----- depth -----

  /** The depth is the length of the longest path to a leaf. */
  lemma {:induction false} DepthIsLongestPath(f: Forest) returns (k: nat)
    ensures k < Leaves(f) && |Path(f, k)| == Depth(f)
    ensures forall j: nat :: j < Leaves(f) ==> |Path(f, j)| <= Depth(f)
    decreases f
  {
    match f
    case Last(node) =>
      k := NodeDepthIsLongestPath(node);
    case More(node, rest) =>
      var a := NodeDepthIsLongestPath(node);
      var b := DepthIsLongestPath(rest);
      k := if NodeDepth(node) >= Depth(rest) then a else NodeLeaves(node) + b;
      forall j: nat | j < Leaves(f)
        ensures |Path(f, j)| <= Depth(f)
      {
        if j >= NodeLeaves(node) {
          assert |Path(rest, j - NodeLeaves(node))| <= Depth(rest);
        }
      }
  }

  lemma {:induction false} NodeDepthIsLongestPath(n: Node) returns (k: nat)
    ensures k < NodeLeaves(n) && |NodePath(n, k)| == NodeDepth(n)
    ensures forall j: nat :: j < NodeLeaves(n) ==> |NodePath(n, j)| <= NodeDepth(n)
    decreases n
  {
    match n
    case Leaf(_, _) =>
      k := 0;
    case Group(_, members) =>
      k := DepthIsLongestPath(members);
  }

  // ----- any schema vector -----

  /** The elements that count as leaves, whatever groups claim to hold. */
  function LeafElements(elements: seq<Element>): nat {
    if elements == [] then 0
    else (if elements[0].children == Unset || elements[0].children == Count(0) then 1 else 0) + LeafElements(elements[1..])
  }

  /** On any vector the machine fails exactly when there is no root with children or no leaf `k` behind
      it, and what it returns fits sixteen bits. */
  lemma FailsExactly(schema: seq<Element>, k: nat)
    ensures MaxLevels(schema, k).Ok? <==>
              schema != [] && schema[0].children.Count? && schema[0].children.n > 0 && k < LeafElements(schema[1..])
    ensures MaxLevels(schema, k).Ok? ==> MaxLevels(schema, k).value.0 < 0x1_0000 && MaxLevels(schema, k).value.1 < 0x1_0000
    ensures MaxLevels(schema, k).Err? ==> MaxLevels(schema, k) == Err(InvalidInput)
  {
    hide Scan;
    if schema != [] && ChildCount(schema[0]) > 0 {
      ScanFailsExactly(schema[1..], [Frame(0, 0, ChildCount(schema[0]))], 0, k);
    }
  }

  predicate Narrow(stack: seq<Frame>) {
    forall i :: 0 <= i < |stack| ==> stack[i].rep < 0x1_0000 && stack[i].def < 0x1_0000
  }

  lemma {:induction false} ScanFailsExactly(elements: seq<Element>, stack: seq<Frame>, c: nat, k: nat)
    requires stack != [] && c <= k && Narrow(stack)
    ensures Scan(elements, stack, c, k).Ok? <==> k < c + LeafElements(elements)
    ensures Scan(elements, stack, c, k).Ok? ==>
              Scan(elements, stack, c, k).value.0 < 0x1_0000 && Scan(elements, stack, c, k).value.1 < 0x1_0000
    ensures Scan(elements, stack, c, k).Err? ==> Scan(elements, stack, c, k) == Err(InvalidInput)
    decreases |elements|
  {
    hide Unwind;
    if elements != [] {
      var e, top := elements[0], stack[|stack| - 1];
      var rep, def := NextRep(top.rep, e.rep), NextDef(top.def, e.rep);
      if ChildCount(e) != 0 {
        ScanFailsExactly(elements[1..], stack + [Frame(rep, def, ChildCount(e))], c, k);
      } else if c != k {
        UnwindNarrow(stack[..|stack| - 1] + [top.(remaining := top.remaining - 1)]);
        ScanFailsExactly(elements[1..], FinishLeaf(stack), c + 1, k);
      }
    }
  }

  lemma {:induction false} UnwindNarrow(stack: seq<Frame>)
    requires stack != [] && Narrow(stack)
    ensures Narrow(Unwind(stack))
    decreases |stack|
  {
    var top := stack[|stack| - 1];
    if top.remaining <= 0 && |stack| > 1 {
      var parent := stack[|stack| - 2];
      UnwindNarrow(stack[..|stack| - 2] + [parent.(remaining := parent.remaining - 1)]);
    }
  }
}
