/**
 Where a package location is stored: the split of a path into a location root and the segments
 below it, and the flat meaning of the location tree that the plugin builds from all of them.

 A path is the list of its segments; an empty last segment stands for a trailing separator. The
 project root itself has none.
 */
module Locations {
  import opened FuseTypes
  import opened Wrappers

  type Path = seq<string>

  const NODE_MODULES := "node_modules"

  /** ppath.contains: the relative path, "." for the directory itself, or null. */
  function Contains(dir: Path, path: Path): Option<seq<string>> {
    if dir == path then Some(["."])
    else if dir < path then Some(path[|dir|..])
    else None
  }

  function NonEmpty(segs: seq<string>): (r: seq<string>)
    ensures forall k :: 0 <= k < |r| ==> r[k] != "" && r[k] in segs
  {
    if segs == [] then []
    else (if segs[0] == "" then [] else [segs[0]]) + NonEmpty(segs[1..])
  }

  /** Array.indexOf: -1 when absent. */
  function PositionOf(segs: seq<string>, s: string): (i: int)
    ensures -1 <= i < |segs|
    ensures i >= 0 ==> segs[i] == s && s !in segs[..i]
    ensures i == -1 <==> s !in segs
  {
    if segs == [] then -1
    else if segs[0] == s then 0
    else
      var i := PositionOf(segs[1..], s);
      if i == -1 then -1
      else
        assert segs[..i + 1] == [segs[0]] + segs[1..][..i];
        i + 1
  }

  /** Array.slice(0, i): a negative i counts from the end. */
  function SliceTo(segs: seq<string>, i: int): seq<string>
    requires -1 <= i <= |segs|
  {
    if i >= 0 then segs[..i] else if segs == [] then [] else segs[..|segs| - 1]
  }

  /** Array.slice(i): a negative i counts from the end. */
  function SliceFrom(segs: seq<string>, i: int): seq<string>
    requires -1 <= i <= |segs|
  {
    if i >= 0 then segs[i..] else if segs == [] then [] else segs[|segs| - 1..]
  }

  datatype Parsed = Parsed(root: Path, segs: seq<string>)

  /** None where the plugin throws: the location is outside the project. */
  function ParseLocation(location: Path, skip: Path): Option<Parsed> {
    match Contains(skip, location)
    case None => None
    case Some(rel) =>
      var all := NonEmpty(rel);
      var nm := PositionOf(all, NODE_MODULES);
      Some(Parsed(skip + SliceTo(all, nm), SliceFrom(all, nm)))
  }

  lemma {:induction false} NonEmptyDot()
    ensures NonEmpty(["."]) == ["."]
  {
    assert ["."][1..] == [];
  }

  lemma {:induction false} SplitAtNodeModules(all: seq<string>)
    ensures var nm := PositionOf(all, NODE_MODULES);
            && SliceTo(all, nm) + SliceFrom(all, nm) == all
            && NODE_MODULES !in SliceTo(all, nm)
            && (NODE_MODULES in SliceFrom(all, nm) ==> SliceFrom(all, nm)[0] == NODE_MODULES)
            && (NODE_MODULES !in SliceFrom(all, nm) ==> |SliceFrom(all, nm)| <= 1)
            && (SliceFrom(all, nm) == [] ==> all == [])
  {
  }

  lemma {:induction false} ContainsIs(dir: Path, path: Path)
    ensures Contains(dir, path) == if !(dir <= path) then None else Some(if path == dir then ["."] else path[|dir|..])
  {
  }

  /**
   Nothing of the location is lost: root and segments together are the location, with "." for the
   project directory itself. The segments start at the first node_modules below the project, or
   are the last segment alone when there is none.
   */
  lemma {:induction false} ParseKeepsLocation(location: Path, skip: Path)
    ensures ParseLocation(location, skip).Some? <==> skip <= location
    ensures skip <= location ==>
              var p := ParseLocation(location, skip).value;
              && p.root + p.segs == skip + (if location == skip then ["."] else NonEmpty(location[|skip|..]))
              && skip <= p.root && NODE_MODULES !in p.root[|skip|..]
              && (NODE_MODULES in p.segs ==> p.segs[0] == NODE_MODULES)
              && (NODE_MODULES !in p.segs ==> |p.segs| <= 1)
              && (p.segs == [] ==> p.root == skip && NonEmpty(location[|skip|..]) == [] && location != skip)
  {
    hide PositionOf, NonEmpty, SliceTo, SliceFrom, Contains, NODE_MODULES;
    ContainsIs(skip, location);
    if skip <= location {
      var all := NonEmpty(Contains(skip, location).value);
      if location == skip { NonEmptyDot(); }
      SplitAtNodeModules(all);
      var nm := PositionOf(all, NODE_MODULES);
      var root, segs := skip + SliceTo(all, nm), SliceFrom(all, nm);
      assert ParseLocation(location, skip) == Some(Parsed(root, segs));
      assert root + segs == skip + (SliceTo(all, nm) + SliceFrom(all, nm));
      assert root[|skip|..] == SliceTo(all, nm);
    }
  }

  // ----- The flat meaning of the tree -----

  /** A node of the tree: its location root and the names below it. */
  datatype Addr = Addr(root: Path, segs: seq<string>) {
    function Child(s: string): Addr { Addr(root, segs + [s]) }
  }

  lemma {:induction false} ChildInjective(a: Addr, s: string, b: Addr, t: string)
    requires a.Child(s) == b.Child(t)
    ensures a == b && s == t
  {
    assert a.segs == (a.segs + [s])[..|a.segs|] && b.segs == (b.segs + [t])[..|b.segs|];
    assert s == (a.segs + [s])[|a.segs|] && t == (b.segs + [t])[|b.segs|];
  }

  /** What a node holds; `order` are its children's names in insertion order. */
  datatype Rec = Rec(locator: Option<string>, link: LinkType, target: Option<Path>, order: seq<string>)

  const EMPTY := Rec(None, HARD, None, [])

  /** All trees: the location roots in insertion order, and every node by its address. */
  datatype Forest = Forest(order: seq<Path>, nodes: map<Addr, Rec>)

  function EnsureRoot(f: Forest, root: Path): Forest {
    if Addr(root, []) in f.nodes then f
    else Forest(f.order + [root], f.nodes[Addr(root, []) := EMPTY])
  }

  function EnsureChild(f: Forest, a: Addr, s: string): Forest
    requires a in f.nodes
  {
    if a.Child(s) in f.nodes then f
    else
      var parent := f.nodes[a].(order := f.nodes[a].order + [s]);
      Forest(f.order, f.nodes[a := parent][a.Child(s) := EMPTY])
  }

  /** The segments without ".", which only the project directory itself has. */
  function Real(segs: seq<string>): (r: seq<string>)
    ensures |r| <= |segs|
  {
    if segs == [] then []
    else if segs[|segs| - 1] == "." then Real(segs[..|segs| - 1])
    else Real(segs[..|segs| - 1]) + [segs[|segs| - 1]]
  }

  /** All nodes on the way to segs exist. */
  function Descend(f: Forest, root: Path, segs: seq<string>): (g: Forest)
    ensures Addr(root, Real(segs)) in g.nodes
    decreases |segs|
  {
    if segs == [] then EnsureRoot(f, root)
    else
      var up, s := segs[..|segs| - 1], segs[|segs| - 1];
      var g := Descend(f, root, up);
      if s == "." then g else EnsureChild(g, Addr(root, Real(up)), s)
  }

  /** One write: the mark of a SOFT package on its target, or a package placed at a location. */
  datatype Op =
    | Mark(root: Path, locator: string)
    | Place(root: Path, segs: seq<string>, locator: string, link: LinkType, target: Path)

  function Apply(f: Forest, op: Op): Forest {
    match op
    case Mark(root, locator) =>
      var g := EnsureRoot(f, root);
      var a := Addr(root, []);
      g.(nodes := g.nodes[a := g.nodes[a].(locator := Some(locator), link := SOFT)])
    case Place(root, segs, locator, link, target) =>
      var g := Descend(f, root, segs);
      if segs == [] then g
      else
        var a := Addr(root, Real(segs));
        g.(nodes := g.nodes[a := g.nodes[a].(locator := Some(locator), link := link, target := Some(target))])
  }

  function ApplyFrom(f: Forest, ops: seq<Op>): Forest {
    if ops == [] then f else Apply(ApplyFrom(f, ops[..|ops| - 1]), ops[|ops| - 1])
  }

  function ApplyAll(ops: seq<Op>): Forest {
    ApplyFrom(Forest([], map[]), ops)
  }

  lemma {:induction false} ApplyConcat(f: Forest, a: seq<Op>, b: seq<Op>)
    ensures ApplyFrom(f, a + b) == ApplyFrom(ApplyFrom(f, a), b)
  {
    hide Apply;
    if b == [] {
      assert a + b == a;
    } else {
      ApplyConcat(f, a, b[..|b| - 1]);
      assert (a + b)[..|a + b| - 1] == a + b[..|b| - 1];
    }
  }

  lemma {:induction false} ApplyOne(f: Forest, ops: seq<Op>, op: Op)
    ensures ApplyFrom(f, ops + [op]) == Apply(ApplyFrom(f, ops), op)
  {
    assert (ops + [op])[..|ops|] == ops;
  }

  // ----- The locator map -----

  datatype Info = Info(link: LinkType, target: Path, locations: seq<Path>)

  type LocatorMap = seq<(string, Info)>

  predicate Inside(locations: seq<Path>, skip: Path) {
    forall k :: 0 <= k < |locations| ==> skip <= locations[k]
  }

  function MarkOps(locator: string, info: Info, skip: Path): seq<Op> {
    if info.link.SOFT? && Contains(skip, info.target).Some? then [Mark(info.target, locator)] else []
  }

  function PlaceOf(locator: string, info: Info, location: Path, skip: Path): Op {
    match ParseLocation(location, skip)
    case Some(p) => Place(p.root, p.segs, locator, info.link, info.target)
    case None => Place(skip, [], locator, info.link, info.target)
  }

  function PlaceOps(locator: string, info: Info, locations: seq<Path>, skip: Path): seq<Op> {
    if locations == [] then []
    else
      PlaceOps(locator, info, locations[..|locations| - 1], skip)
      + [PlaceOf(locator, info, locations[|locations| - 1], skip)]
  }

  function OpsOf(locator: string, info: Info, skip: Path): seq<Op> {
    MarkOps(locator, info, skip) + PlaceOps(locator, info, info.locations, skip)
  }

  /** All writes in the order the plugin makes them. */
  function Ops(m: LocatorMap, skip: Path): seq<Op> {
    if m == [] then [] else Ops(m[..|m| - 1], skip) + OpsOf(m[|m| - 1].0, m[|m| - 1].1, skip)
  }

  predicate AllInside(m: LocatorMap, skip: Path) {
    forall i :: 0 <= i < |m| ==> Inside(m[i].1.locations, skip)
  }

  // ----- What the writes mean -----

  /** The write creates the node or passes through it. */
  predicate Touches(op: Op, a: Addr) {
    op.root == a.root && a.segs <= if op.Mark? then [] else Real(op.segs)
  }

  /** The write sets the node's locator and link type. */
  predicate Writes(op: Op, a: Addr) {
    op.root == a.root && match op
                         case Mark(_, _) => a.segs == []
                         case Place(_, segs, _, _, _) => segs != [] && a.segs == Real(segs)
  }

  ghost predicate LastWrite(ops: seq<Op>, a: Addr, i: int) {
    0 <= i < |ops| && Writes(ops[i], a) && forall j :: i < j < |ops| ==> !Writes(ops[j], a)
  }

  /** The write also sets the node's target. */
  predicate Places(op: Op, a: Addr) {
    op.Place? && Writes(op, a)
  }

  ghost predicate LastPlace(ops: seq<Op>, a: Addr, i: int) {
    0 <= i < |ops| && Places(ops[i], a) && forall j :: i < j < |ops| ==> !Places(ops[j], a)
  }

  function OpLink(op: Op): LinkType {
    if op.Mark? then SOFT else op.link
  }

  ghost predicate SameBut(f: Forest, g: Forest, added: iset<Addr>) {
    && (forall a :: a in g.nodes <==> a in f.nodes || a in added)
    && (forall a :: a in f.nodes ==> g.nodes[a] == f.nodes[a].(order := g.nodes[a].order))
    && (forall a :: a in g.nodes && a !in f.nodes ==> g.nodes[a] == EMPTY.(order := g.nodes[a].order))
  }

  ghost function Ancestors(root: Path, segs: seq<string>): iset<Addr> {
    iset a: Addr | a.root == root && a.segs <= segs
  }

  lemma {:induction false} EnsureChildAdds(f: Forest, g: Forest, a: Addr, s: string, some: iset<Addr>, more: iset<Addr>)
    requires SameBut(f, g, some) && a in g.nodes
    requires forall b :: b in more <==> b in some || b == a.Child(s)
    ensures SameBut(f, EnsureChild(g, a, s), more)
  {
  }

  lemma {:induction false} PrefixSnoc(x: seq<string>, y: seq<string>, s: string)
    ensures x <= y + [s] <==> x <= y || x == y + [s]
  {
    if x <= y + [s] && |x| <= |y| {
      assert x == (y + [s])[..|x|] == y[..|x|];
    }
  }

  lemma {:induction false} DescendAdds(f: Forest, root: Path, segs: seq<string>)
    ensures SameBut(f, Descend(f, root, segs), Ancestors(root, Real(segs)))
    decreases |segs|
  {
    if segs == [] {
      assert forall a: Addr :: a in Ancestors(root, []) <==> a == Addr(root, []);
    } else {
      var up, s := segs[..|segs| - 1], segs[|segs| - 1];
      DescendAdds(f, root, up);
      if s != "." {
        var a := Addr(root, Real(up));
        forall b: Addr ensures b in Ancestors(root, Real(segs)) <==> b in Ancestors(root, Real(up)) || b == a.Child(s) {
          PrefixSnoc(b.segs, Real(up), s);
        }
        EnsureChildAdds(f, Descend(f, root, up), a, s, Ancestors(root, Real(up)), Ancestors(root, Real(segs)));
      }
    }
  }

  lemma {:induction false} ApplyStep(f: Forest, op: Op, a: Addr)
    ensures a in Apply(f, op).nodes <==> a in f.nodes || Touches(op, a)
    ensures a in Apply(f, op).nodes ==>
              var r := if a in f.nodes then f.nodes[a] else EMPTY;
              var r' := Apply(f, op).nodes[a];
              if Writes(op, a)
              then r'.locator == Some(op.locator) && r'.link == OpLink(op)
                   && r'.target == if op.Place? then Some(op.target) else r.target
              else r' == r.(order := r'.order)
  {
    if op.Place? { DescendAdds(f, op.root, op.segs); }
  }

  lemma {:induction false} WritesTouches(op: Op, a: Addr)
    requires Writes(op, a)
    ensures Touches(op, a)
  {
  }

  lemma {:induction false} NodeExists(ops: seq<Op>, a: Addr)
    ensures a in ApplyAll(ops).nodes <==> exists i :: 0 <= i < |ops| && Touches(ops[i], a)
    decreases |ops|
  {
    hide Apply, Touches, Writes;
    if ops != [] {
      var m := |ops| - 1;
      NodeExists(ops[..m], a);
      ApplyStep(ApplyAll(ops[..m]), ops[m], a);
      assert forall j :: 0 <= j < m ==> ops[..m][j] == ops[j];
      if i :| 0 <= i < |ops| && Touches(ops[i], a) {
        assert i < m ==> Touches(ops[..m][i], a);
      }
    }
  }

  lemma {:induction false} LastWriteSets(ops: seq<Op>, a: Addr, i: nat)
    requires LastWrite(ops, a, i)
    ensures a in ApplyAll(ops).nodes
    ensures ApplyAll(ops).nodes[a].locator == Some(ops[i].locator) && ApplyAll(ops).nodes[a].link == OpLink(ops[i])
    decreases |ops|
  {
    hide Apply, Touches, Writes;
    var m := |ops| - 1;
    var init := ops[..m];
    ApplyStep(ApplyAll(init), ops[m], a);
    if i < m {
      LastWriteSets(init, a, i);
      assert !Writes(ops[m], a);
    } else {
      WritesTouches(ops[m], a);
    }
  }

  lemma {:induction false} LastPlaceSets(ops: seq<Op>, a: Addr, i: nat)
    requires LastPlace(ops, a, i)
    ensures a in ApplyAll(ops).nodes && ops[i].Place? && ApplyAll(ops).nodes[a].target == Some(ops[i].target)
    decreases |ops|
  {
    hide Apply, Touches, Writes;
    var m := |ops| - 1;
    var init := ops[..m];
    ApplyStep(ApplyAll(init), ops[m], a);
    if i < m {
      LastPlaceSets(init, a, i);
      assert !Places(ops[m], a);
    } else {
      WritesTouches(ops[m], a);
    }
  }

  lemma {:induction false} NeverPlaced(ops: seq<Op>, a: Addr)
    requires a in ApplyAll(ops).nodes && forall i :: 0 <= i < |ops| ==> !Places(ops[i], a)
    ensures ApplyAll(ops).nodes[a].target == None
    decreases |ops|
  {
    hide Apply, Touches, Writes;
    if ops != [] {
      var m := |ops| - 1;
      var init := ops[..m];
      ApplyStep(ApplyAll(init), ops[m], a);
      assert !Places(ops[m], a);
      if a in ApplyAll(init).nodes { NeverPlaced(init, a); }
    }
  }

  lemma {:induction false} NeverWritten(ops: seq<Op>, a: Addr)
    requires a in ApplyAll(ops).nodes && forall i :: 0 <= i < |ops| ==> !Writes(ops[i], a)
    ensures ApplyAll(ops).nodes[a] == EMPTY.(order := ApplyAll(ops).nodes[a].order)
    decreases |ops|
  {
    hide Apply, Touches, Writes;
    if ops != [] {
      var m := |ops| - 1;
      var init := ops[..m];
      ApplyStep(ApplyAll(init), ops[m], a);
      assert !Writes(ops[m], a);
      if a in ApplyAll(init).nodes { NeverWritten(init, a); }
    }
  }

  /**
   The meaning of the location tree. A node exists exactly for the addresses some write passes
   through; its locator and link type are those of the last write to it, its target that of the
   last package placed at it, which a later mark leaves alone; and an address never written is a
   plain HARD node.
   */
  lemma {:induction false} LastWriteWins(ops: seq<Op>, a: Addr)
    ensures a in ApplyAll(ops).nodes <==> exists i :: 0 <= i < |ops| && Touches(ops[i], a)
    ensures forall i | LastWrite(ops, a, i) ::
              && a in ApplyAll(ops).nodes && ApplyAll(ops).nodes[a].locator == Some(ops[i].locator)
              && ApplyAll(ops).nodes[a].link == OpLink(ops[i])
    ensures forall i | LastPlace(ops, a, i) ::
              a in ApplyAll(ops).nodes && ops[i].Place? && ApplyAll(ops).nodes[a].target == Some(ops[i].target)
    ensures a in ApplyAll(ops).nodes && (forall i :: 0 <= i < |ops| ==> !Places(ops[i], a)) ==>
              ApplyAll(ops).nodes[a].target == None
    ensures a in ApplyAll(ops).nodes && (forall i :: 0 <= i < |ops| ==> !Writes(ops[i], a)) ==>
              ApplyAll(ops).nodes[a] == EMPTY.(order := ApplyAll(ops).nodes[a].order)
  {
    hide Touches, Writes, Places, ApplyAll;
    NodeExists(ops, a);
    forall i | LastWrite(ops, a, i)
      ensures a in ApplyAll(ops).nodes && ApplyAll(ops).nodes[a].locator == Some(ops[i].locator)
              && ApplyAll(ops).nodes[a].link == OpLink(ops[i])
    {
      LastWriteSets(ops, a, i);
    }
    forall i | LastPlace(ops, a, i)
      ensures a in ApplyAll(ops).nodes && ops[i].Place? && ApplyAll(ops).nodes[a].target == Some(ops[i].target)
    {
      LastPlaceSets(ops, a, i);
    }
    if a in ApplyAll(ops).nodes && forall i :: 0 <= i < |ops| ==> !Places(ops[i], a) { NeverPlaced(ops, a); }
    if a in ApplyAll(ops).nodes && forall i :: 0 <= i < |ops| ==> !Writes(ops[i], a) { NeverWritten(ops, a); }
  }

  lemma {:induction false} LastWriteExists(ops: seq<Op>, a: Addr, i: nat) returns (j: nat)
    requires i < |ops| && Writes(ops[i], a)
    ensures i <= j && LastWrite(ops, a, j)
    decreases |ops| - i
  {
    if k :| i < k < |ops| && Writes(ops[k], a) {
      j := LastWriteExists(ops, a, k);
    } else {
      j := i;
    }
  }

  // ----- Which writes a locator map makes, and in which order -----

  /** A SOFT package whose target is in the project marks it. */
  predicate HasMark(info: Info, skip: Path) {
    info.link.SOFT? && skip <= info.target
  }

  function MarkCount(info: Info, skip: Path): nat {
    if HasMark(info, skip) then 1 else 0
  }

  /** How many writes the packages before number i make. */
  function StartOf(m: LocatorMap, skip: Path, i: nat): nat
    requires i <= |m|
  {
    if i == 0 then 0
    else StartOf(m, skip, i - 1) + MarkCount(m[i - 1].1, skip) + |m[i - 1].1.locations|
  }

  /** The position of the write for package i's k-th location: behind its mark. */
  function PlaceIndex(m: LocatorMap, skip: Path, i: nat, k: nat): nat
    requires i < |m|
  {
    StartOf(m, skip, i) + MarkCount(m[i].1, skip) + k
  }

  lemma {:induction false} StartsGrow(m: LocatorMap, skip: Path, i: nat, j: nat)
    requires i <= j <= |m|
    ensures StartOf(m, skip, i) <= StartOf(m, skip, j)
  {
    if i < j { StartsGrow(m, skip, i, j - 1); }
  }

  lemma {:induction false} StartPrefix(m: LocatorMap, skip: Path, n: nat, i: nat)
    requires i <= n <= |m|
    ensures StartOf(m[..n], skip, i) == StartOf(m, skip, i)
  {
    if i > 0 { StartPrefix(m, skip, n, i - 1); }
  }

  lemma {:induction false} PlaceOpsAre(locator: string, info: Info, locations: seq<Path>, skip: Path)
    ensures |PlaceOps(locator, info, locations, skip)| == |locations|
    ensures forall k :: 0 <= k < |locations| ==>
              PlaceOps(locator, info, locations, skip)[k] == PlaceOf(locator, info, locations[k], skip)
  {
    hide PlaceOf;
    if locations != [] { PlaceOpsAre(locator, info, locations[..|locations| - 1], skip); }
  }

  lemma {:induction false} OpsOfAre(locator: string, info: Info, skip: Path)
    ensures var ops, n := OpsOf(locator, info, skip), MarkCount(info, skip);
            && |ops| == n + |info.locations|
            && (HasMark(info, skip) ==> ops[0] == Mark(info.target, locator))
            && forall k :: 0 <= k < |info.locations| ==> ops[n + k] == PlaceOf(locator, info, info.locations[k], skip)
  {
    hide PlaceOf, PlaceOps;
    PlaceOpsAre(locator, info, info.locations, skip);
    assert Contains(skip, info.target).Some? <==> skip <= info.target;
  }

  lemma {:induction false} LengthOfOps(m: LocatorMap, skip: Path)
    ensures |Ops(m, skip)| == StartOf(m, skip, |m|)
    decreases |m|
  {
    hide OpsOf;
    if m != [] {
      var n := |m| - 1;
      LengthOfOps(m[..n], skip);
      OpsOfAre(m[n].0, m[n].1, skip);
      StartPrefix(m, skip, n, n);
    }
  }

  /** The writes of package i stand together, behind those of the packages before it. */
  lemma {:induction false} OpsAt(m: LocatorMap, skip: Path, i: nat)
    requires i < |m|
    ensures StartOf(m, skip, i + 1) <= |Ops(m, skip)| == StartOf(m, skip, |m|)
    ensures Ops(m, skip)[StartOf(m, skip, i)..StartOf(m, skip, i + 1)] == OpsOf(m[i].0, m[i].1, skip)
    decreases |m|
  {
    hide OpsOf;
    var n := |m| - 1;
    var init := m[..n];
    OpsOfAre(m[n].0, m[n].1, skip);
    StartPrefix(m, skip, n, n);
    LengthOfOps(init, skip);
    if i < n {
      StartPrefix(m, skip, n, i);
      StartPrefix(m, skip, n, i + 1);
      OpsAt(init, skip, i);
      assert Ops(m, skip) == Ops(init, skip) + OpsOf(m[n].0, m[n].1, skip);
    }
  }

  /** The mark of a SOFT package is the first of its writes. */
  lemma {:induction false} MarkWritten(m: LocatorMap, skip: Path, i: nat)
    requires i < |m| && m[i].1.link.SOFT? && skip <= m[i].1.target
    ensures StartOf(m, skip, i) < |Ops(m, skip)|
    ensures Ops(m, skip)[StartOf(m, skip, i)] == Mark(m[i].1.target, m[i].0)
  {
    hide OpsOf, Ops;
    OpsAt(m, skip, i);
    OpsOfAre(m[i].0, m[i].1, skip);
    assert Ops(m, skip)[StartOf(m, skip, i)] == Ops(m, skip)[StartOf(m, skip, i)..StartOf(m, skip, i + 1)][0];
  }

  lemma {:induction false} SliceAt(ops: seq<Op>, lo: nat, hi: nat, k: nat)
    requires lo + k < hi <= |ops|
    ensures ops[lo + k] == ops[lo..hi][k]
  {
  }

  /** Each of its locations is written behind it, with the package's link type and target. */
  lemma {:induction false} PlaceWritten(m: LocatorMap, skip: Path, i: nat, k: nat)
    requires i < |m| && k < |m[i].1.locations| && skip <= m[i].1.locations[k]
    ensures ParseLocation(m[i].1.locations[k], skip).Some?
    ensures var p, x := ParseLocation(m[i].1.locations[k], skip).value, PlaceIndex(m, skip, i, k);
            && StartOf(m, skip, i) <= x < StartOf(m, skip, i + 1) <= |Ops(m, skip)|
            && Ops(m, skip)[x] == Place(p.root, p.segs, m[i].0, m[i].1.link, m[i].1.target)
  {
    hide OpsOf, Ops, ParseLocation, NODE_MODULES, NonEmpty;
    ParseKeepsLocation(m[i].1.locations[k], skip);
    OpsAt(m, skip, i);
    OpsOfAre(m[i].0, m[i].1, skip);
    SliceAt(Ops(m, skip), StartOf(m, skip, i), StartOf(m, skip, i + 1), MarkCount(m[i].1, skip) + k);
  }

  lemma {:induction false} PackageOf(m: LocatorMap, skip: Path, x: nat, n: nat) returns (i: nat)
    requires n <= |m| && x < StartOf(m, skip, n)
    ensures i < n && StartOf(m, skip, i) <= x < StartOf(m, skip, i + 1)
  {
    if x < StartOf(m, skip, n - 1) {
      i := PackageOf(m, skip, x, n - 1);
    } else {
      i := n - 1;
    }
  }

  /** There are no other writes. */
  lemma {:induction false} EveryWrite(m: LocatorMap, skip: Path, x: nat) returns (i: nat)
    requires x < |Ops(m, skip)|
    ensures i < |m| && StartOf(m, skip, i) <= x < StartOf(m, skip, i + 1)
    ensures (HasMark(m[i].1, skip) && x == StartOf(m, skip, i))
            || exists k :: 0 <= k < |m[i].1.locations| && x == PlaceIndex(m, skip, i, k)
  {
    LengthOfOps(m, skip);
    i := PackageOf(m, skip, x, |m|);
    var n := MarkCount(m[i].1, skip);
    if x >= StartOf(m, skip, i) + n {
      var k := x - StartOf(m, skip, i) - n;
      assert 0 <= k < |m[i].1.locations| && x == PlaceIndex(m, skip, i, k);
    }
  }

  // ----- What the locator map means -----

  /** The address a location is parsed to. */
  function Spot(location: Path, skip: Path): Addr
    requires skip <= location
  {
    var p := ParseLocation(location, skip).value;
    Addr(p.root, Real(p.segs))
  }

  /** Package i marks the address. */
  predicate Marks(m: LocatorMap, skip: Path, a: Addr, i: nat) {
    i < |m| && m[i].1.link.SOFT? && skip <= m[i].1.target && a == Addr(m[i].1.target, [])
  }

  predicate PutAt(location: Path, skip: Path, a: Addr)
    requires skip <= location
  {
    Spot(location, skip) == a && ParseLocation(location, skip).value.segs != []
  }

  /** One of package i's locations is this address. */
  predicate Puts(m: LocatorMap, skip: Path, a: Addr, i: nat)
    requires AllInside(m, skip)
  {
    i < |m| && exists k :: 0 <= k < |m[i].1.locations| && PutAt(m[i].1.locations[k], skip, a)
  }

  /** Package i is the last one to write the address, by a mark or a location. */
  ghost predicate LastWriter(m: LocatorMap, skip: Path, a: Addr, i: nat)
    requires AllInside(m, skip)
  {
    && i < |m| && (Marks(m, skip, a, i) || Puts(m, skip, a, i))
    && forall j: nat :: i < j < |m| ==> !Marks(m, skip, a, j) && !Puts(m, skip, a, j)
  }

  /** Package i is the last one with a location at the address. */
  ghost predicate LastPutter(m: LocatorMap, skip: Path, a: Addr, i: nat)
    requires AllInside(m, skip)
  {
    i < |m| && Puts(m, skip, a, i) && forall j: nat :: i < j < |m| ==> !Puts(m, skip, a, j)
  }

  lemma {:induction false} LocationInside(m: LocatorMap, skip: Path, i: nat, k: nat)
    requires AllInside(m, skip) && i < |m| && k < |m[i].1.locations|
    ensures skip <= m[i].1.locations[k]
  {
    assert Inside(m[i].1.locations, skip);
  }

  lemma {:induction false} PutsAt(m: LocatorMap, skip: Path, a: Addr, i: nat, k: nat)
    requires AllInside(m, skip) && i < |m| && k < |m[i].1.locations| && skip <= m[i].1.locations[k]
    requires PutAt(m[i].1.locations[k], skip, a)
    ensures Puts(m, skip, a, i)
  {
    hide PutAt;
  }

  /** A write of package i, and whether it places a package. */
  lemma {:induction false} WriteOfPackage(m: LocatorMap, skip: Path, a: Addr, x: nat) returns (i: nat)
    requires AllInside(m, skip) && x < |Ops(m, skip)| && Writes(Ops(m, skip)[x], a)
    ensures i < |m| && StartOf(m, skip, i) <= x < StartOf(m, skip, i + 1)
    ensures var op := Ops(m, skip)[x];
            && op.locator == m[i].0 && OpLink(op) == m[i].1.link
            && (op.Mark? ==> Marks(m, skip, a, i))
            && (op.Place? ==> Puts(m, skip, a, i) && op.target == m[i].1.target)
  {
    hide Ops, ParseLocation, Real, Puts, AllInside;
    i := EveryWrite(m, skip, x);
    if HasMark(m[i].1, skip) && x == StartOf(m, skip, i) {
      MarkWritten(m, skip, i);
    } else {
      var k :| 0 <= k < |m[i].1.locations| && x == PlaceIndex(m, skip, i, k);
      LocationInside(m, skip, i, k);
      PlaceWritten(m, skip, i, k);
      assert PutAt(m[i].1.locations[k], skip, a);
      PutsAt(m, skip, a, i, k);
    }
  }

  lemma {:induction false} PutIsWritten(m: LocatorMap, skip: Path, a: Addr, i: nat) returns (x: nat)
    requires AllInside(m, skip) && Puts(m, skip, a, i)
    ensures StartOf(m, skip, i) <= x < StartOf(m, skip, i + 1) <= |Ops(m, skip)|
    ensures Writes(Ops(m, skip)[x], a) && Ops(m, skip)[x].Place?
  {
    hide Ops, ParseLocation, Real;
    var k :| 0 <= k < |m[i].1.locations| && PutAt(m[i].1.locations[k], skip, a);
    LocationInside(m, skip, i, k);
    PlaceWritten(m, skip, i, k);
    x := PlaceIndex(m, skip, i, k);
  }

  lemma {:induction false} WriterIsWritten(m: LocatorMap, skip: Path, a: Addr, i: nat) returns (x: nat)
    requires AllInside(m, skip) && (Marks(m, skip, a, i) || Puts(m, skip, a, i))
    ensures StartOf(m, skip, i) <= x < |Ops(m, skip)| && Writes(Ops(m, skip)[x], a)
  {
    hide Ops, ParseLocation, Real, Puts, AllInside;
    if Puts(m, skip, a, i) {
      x := PutIsWritten(m, skip, a, i);
    } else {
      MarkWritten(m, skip, i);
      x := StartOf(m, skip, i);
    }
  }

  lemma {:induction false} LaterPackage(m: LocatorMap, skip: Path, i: nat, j: nat, x: nat)
    requires i < |m| && j < |m| && StartOf(m, skip, i) <= x < StartOf(m, skip, j + 1)
    ensures i <= j
  {
    if j < i { StartsGrow(m, skip, j + 1, i); }
  }

  lemma {:induction false} LastWriterWins(m: LocatorMap, skip: Path, a: Addr, i: nat)
    requires AllInside(m, skip) && LastWriter(m, skip, a, i)
    ensures a in ApplyAll(Ops(m, skip)).nodes
    ensures var r := ApplyAll(Ops(m, skip)).nodes[a]; r.locator == Some(m[i].0) && r.link == m[i].1.link
  {
    hide Ops, ApplyAll, AllInside, Puts, Marks, Writes;
    var ops := Ops(m, skip);
    var x := WriterIsWritten(m, skip, a, i);
    var y := LastWriteExists(ops, a, x);
    var j := WriteOfPackage(m, skip, a, y);
    LaterPackage(m, skip, i, j, y);
    LastWriteSets(ops, a, y);
  }

  lemma {:induction false} LastPlaceExists(ops: seq<Op>, a: Addr, i: nat) returns (j: nat)
    requires i < |ops| && Places(ops[i], a)
    ensures i <= j && LastPlace(ops, a, j)
    decreases |ops| - i
  {
    if k :| i < k < |ops| && Places(ops[k], a) {
      j := LastPlaceExists(ops, a, k);
    } else {
      j := i;
    }
  }

  lemma {:induction false} LastPutterWins(m: LocatorMap, skip: Path, a: Addr, i: nat)
    requires AllInside(m, skip) && LastPutter(m, skip, a, i)
    ensures a in ApplyAll(Ops(m, skip)).nodes && ApplyAll(Ops(m, skip)).nodes[a].target == Some(m[i].1.target)
  {
    hide Ops, ApplyAll, AllInside, Puts, Writes;
    var ops := Ops(m, skip);
    var x := PutIsWritten(m, skip, a, i);
    var y := LastPlaceExists(ops, a, x);
    var j := WriteOfPackage(m, skip, a, y);
    LaterPackage(m, skip, i, j, y);
    LastPlaceSets(ops, a, y);
  }

  predicate PassedBy(location: Path, skip: Path, a: Addr)
  {
    skip <= location && Spot(location, skip).root == a.root && a.segs <= Spot(location, skip).segs
  }

  predicate Passes(m: LocatorMap, skip: Path, a: Addr, i: nat, k: nat)
    requires AllInside(m, skip)
  {
    i < |m| && k < |m[i].1.locations| && PassedBy(m[i].1.locations[k], skip, a)
  }

  /** Some location of the map leads to or through the address, or a package marks it. */
  ghost predicate Reached(m: LocatorMap, skip: Path, a: Addr)
    requires AllInside(m, skip)
  {
    || (exists i: nat :: Marks(m, skip, a, i))
    || exists i: nat, k: nat :: Passes(m, skip, a, i, k)
  }

  lemma {:induction false} NodesAreReached(m: LocatorMap, skip: Path, a: Addr)
    requires AllInside(m, skip)
    ensures a in ApplyAll(Ops(m, skip)).nodes <==> Reached(m, skip, a)
  {
    hide Ops, ApplyAll, ParseLocation, Real, AllInside;
    var ops := Ops(m, skip);
    NodeExists(ops, a);
    if x :| 0 <= x < |ops| && Touches(ops[x], a) {
      var i := EveryWrite(m, skip, x);
      if HasMark(m[i].1, skip) && x == StartOf(m, skip, i) {
        MarkWritten(m, skip, i);
        assert Marks(m, skip, a, i);
      } else {
        var k :| 0 <= k < |m[i].1.locations| && x == PlaceIndex(m, skip, i, k);
        LocationInside(m, skip, i, k);
        PlaceWritten(m, skip, i, k);
        assert Passes(m, skip, a, i, k);
      }
    }
    if i: nat :| Marks(m, skip, a, i) {
      MarkWritten(m, skip, i);
      assert Touches(ops[StartOf(m, skip, i)], a);
    }
    if i: nat, k: nat :| Passes(m, skip, a, i, k) {
      PlaceWritten(m, skip, i, k);
      assert Touches(ops[PlaceIndex(m, skip, i, k)], a);
    }
  }

  lemma {:induction false} LastPutterExists(m: LocatorMap, skip: Path, a: Addr, i: nat) returns (j: nat)
    requires AllInside(m, skip) && Puts(m, skip, a, i)
    ensures i <= j && LastPutter(m, skip, a, j)
    decreases |m| - i
  {
    hide AllInside, PutAt;
    if k: nat :| i < k < |m| && Puts(m, skip, a, k) {
      j := LastPutterExists(m, skip, a, k);
    } else {
      j := i;
    }
  }

  lemma {:induction false} NoPutter(m: LocatorMap, skip: Path, a: Addr)
    requires AllInside(m, skip) && a in ApplyAll(Ops(m, skip)).nodes && forall i: nat :: !LastPutter(m, skip, a, i)
    ensures ApplyAll(Ops(m, skip)).nodes[a].target == None
  {
    hide Ops, ApplyAll, AllInside, Writes, LastPutter, Puts;
    var ops := Ops(m, skip);
    forall x | 0 <= x < |ops| ensures !Places(ops[x], a) {
      if Places(ops[x], a) {
        var i := WriteOfPackage(m, skip, a, x);
        var j := LastPutterExists(m, skip, a, i);
        assert false;
      }
    }
    NeverPlaced(ops, a);
  }

  lemma {:induction false} LastWriterExists(m: LocatorMap, skip: Path, a: Addr, i: nat) returns (j: nat)
    requires AllInside(m, skip) && (Marks(m, skip, a, i) || Puts(m, skip, a, i))
    ensures i <= j && LastWriter(m, skip, a, j)
    decreases |m| - i
  {
    hide AllInside, PutAt;
    if k: nat :| i < k < |m| && (Marks(m, skip, a, k) || Puts(m, skip, a, k)) {
      j := LastWriterExists(m, skip, a, k);
    } else {
      j := i;
    }
  }

  lemma {:induction false} NoWriter(m: LocatorMap, skip: Path, a: Addr)
    requires AllInside(m, skip) && a in ApplyAll(Ops(m, skip)).nodes && forall i: nat :: !LastWriter(m, skip, a, i)
    ensures ApplyAll(Ops(m, skip)).nodes[a].locator == None && ApplyAll(Ops(m, skip)).nodes[a].link == HARD
  {
    hide Ops, ApplyAll, AllInside, Writes, LastWriter, Puts, Marks;
    var ops := Ops(m, skip);
    forall x | 0 <= x < |ops| ensures !Writes(ops[x], a) {
      if Writes(ops[x], a) {
        var i := WriteOfPackage(m, skip, a, x);
        var j := LastWriterExists(m, skip, a, i);
        assert false;
      }
    }
    NeverWritten(ops, a);
  }

  /**
   The meaning of the location tree, in terms of the locator map alone. A node exists exactly where a
   location leads to or through it or a SOFT package marks it. It carries the locator and link type
   of the last package in the map that writes it, by its mark or by a location, and the target of
   the last package with a location there; a node that no package writes is a plain HARD directory.
   */
  lemma {:induction false} TreeMeansMap(m: LocatorMap, skip: Path, a: Addr)
    requires AllInside(m, skip)
    ensures a in ApplyAll(Ops(m, skip)).nodes <==> Reached(m, skip, a)
    ensures forall i: nat | LastWriter(m, skip, a, i) ::
              a in ApplyAll(Ops(m, skip)).nodes && ApplyAll(Ops(m, skip)).nodes[a].locator == Some(m[i].0)
              && ApplyAll(Ops(m, skip)).nodes[a].link == m[i].1.link
    ensures forall i: nat | LastPutter(m, skip, a, i) ::
              a in ApplyAll(Ops(m, skip)).nodes && ApplyAll(Ops(m, skip)).nodes[a].target == Some(m[i].1.target)
    ensures a in ApplyAll(Ops(m, skip)).nodes && (forall i: nat :: !LastPutter(m, skip, a, i)) ==>
              ApplyAll(Ops(m, skip)).nodes[a].target == None
    ensures a in ApplyAll(Ops(m, skip)).nodes && (forall i: nat :: !LastWriter(m, skip, a, i)) ==>
              ApplyAll(Ops(m, skip)).nodes[a].locator == None && ApplyAll(Ops(m, skip)).nodes[a].link == HARD
  {
    hide Ops, ApplyAll, AllInside, Marks, Puts, Reached;
    NodesAreReached(m, skip, a);
    forall i: nat | LastWriter(m, skip, a, i)
      ensures a in ApplyAll(Ops(m, skip)).nodes && ApplyAll(Ops(m, skip)).nodes[a].locator == Some(m[i].0)
              && ApplyAll(Ops(m, skip)).nodes[a].link == m[i].1.link
    {
      LastWriterWins(m, skip, a, i);
    }
    forall i: nat | LastPutter(m, skip, a, i)
      ensures a in ApplyAll(Ops(m, skip)).nodes && ApplyAll(Ops(m, skip)).nodes[a].target == Some(m[i].1.target)
    {
      LastPutterWins(m, skip, a, i);
    }
    if a in ApplyAll(Ops(m, skip)).nodes && forall i: nat :: !LastPutter(m, skip, a, i) { NoPutter(m, skip, a); }
    if a in ApplyAll(Ops(m, skip)).nodes && forall i: nat :: !LastWriter(m, skip, a, i) { NoWriter(m, skip, a); }
  }

  /** Only "." is passed over on the way down; it is what the project directory itself is parsed to. */
  lemma {:induction false} RealIs(segs: seq<string>)
    ensures "." !in segs ==> Real(segs) == segs
    ensures Real(segs + ["."]) == Real(segs)
  {
    assert (segs + ["."])[..|segs|] == segs;
    if segs != [] {
      var n := |segs| - 1;
      RealIs(segs[..n]);
      assert segs == segs[..n] + [segs[n]];
    }
  }

  lemma {:induction false} ProjectLocation(skip: Path)
    ensures ParseLocation(skip, skip) == Some(Parsed(skip, ["."])) && Real(["."]) == []
  {
    hide NonEmpty, Real;
    NonEmptyDot();
    assert PositionOf(["."], NODE_MODULES) == -1;
    assert skip + [] == skip && ["."][..0] == [] && ["."][0..] == ["."];
    RealIs([]);
    assert [] + ["."] == ["."];
  }

  lemma {:induction false} NonEmptyKeeps(segs: seq<string>)
    ensures forall s :: s in NonEmpty(segs) ==> s in segs
  {
  }

  predicate CleanPath(path: Path) {
    "" !in path
  }

  lemma {:induction false} NonEmptyClean(path: Path)
    ensures CleanPath(path) ==> NonEmpty(path) == path
    ensures CleanPath(NonEmpty(path))
  {
    if path != [] { NonEmptyClean(path[1..]); }
  }

  lemma {:induction false} LocationShape(location: Path, skip: Path)
    requires skip <= location && CleanPath(skip)
    ensures ParseLocation(location, skip).Some?
    ensures var p := ParseLocation(location, skip).value;
            && skip <= p.root && CleanPath(p.root) && CleanPath(p.segs) && NODE_MODULES !in p.root[|skip|..]
            && (|p.segs| > 1 ==> p.segs[0] == NODE_MODULES)
  {
    hide NonEmpty, PositionOf, ParseLocation;
    ParseKeepsLocation(location, skip);
    NonEmptyClean(location[|skip|..]);
    var p := ParseLocation(location, skip).value;
    var whole := skip + if location == skip then ["."] else NonEmpty(location[|skip|..]);
    assert CleanPath(whole);
    assert p.root == whole[..|p.root|] && p.segs == whole[|p.root|..];
  }

  /** The shape of a write: inside the project, and below a clean root for a placed package. */
  lemma {:induction false} WriteShape(m: LocatorMap, skip: Path, op: Op)
    requires op in Ops(m, skip) && AllInside(m, skip) && CleanPath(skip)
    ensures skip <= op.root && exists i :: 0 <= i < |m| && op.locator == m[i].0
    ensures op.Place? ==>
              && CleanPath(op.root) && CleanPath(op.segs) && NODE_MODULES !in op.root[|skip|..]
              && (|op.segs| > 1 ==> op.segs[0] == NODE_MODULES)
  {
    hide Ops, CleanPath, ParseLocation, Contains, AllInside;
    var x :| 0 <= x < |Ops(m, skip)| && Ops(m, skip)[x] == op;
    var i := EveryWrite(m, skip, x);
    if HasMark(m[i].1, skip) && x == StartOf(m, skip, i) {
      MarkWritten(m, skip, i);
    } else {
      var k :| 0 <= k < |m[i].1.locations| && x == PlaceIndex(m, skip, i, k);
      LocationInside(m, skip, i, k);
      PlaceWritten(m, skip, i, k);
      LocationShape(m[i].1.locations[k], skip);
    }
  }

  lemma {:induction false} RealShape(segs: seq<string>)
    ensures CleanPath(segs) ==> CleanPath(Real(segs))
    ensures segs != [] && segs[0] != "." ==> Real(segs) != [] && Real(segs)[0] == segs[0]
  {
    if |segs| > 1 {
      RealShape(segs[..|segs| - 1]);
    } else if segs != [] {
      assert segs[..0] == [];
    }
  }

  lemma {:induction false} NonEmptySnoc(path: Path, s: string)
    ensures NonEmpty(path + [s]) == NonEmpty(path) + if s == "" then [] else [s]
  {
    if path != [] {
      NonEmptySnoc(path[1..], s);
      assert (path + [s])[1..] == path[1..] + [s];
    } else {
      assert (path + [s])[1..] == [];
    }
  }

  /**
   Trie well-formedness: every stored locator is a key of the locator map, and every node lies
   inside the project.
   */
  lemma {:induction false} StoredLocatorsAreKeys(m: LocatorMap, skip: Path, a: Addr)
    requires AllInside(m, skip) && CleanPath(skip) && a in ApplyAll(Ops(m, skip)).nodes
    ensures skip <= a.root && skip <= a.root + a.segs
    ensures ApplyAll(Ops(m, skip)).nodes[a].locator.Some? ==>
              exists i :: 0 <= i < |m| && ApplyAll(Ops(m, skip)).nodes[a].locator == Some(m[i].0)
    ensures a.segs != [] ==> CleanPath(a.root) && CleanPath(a.segs) && NODE_MODULES !in a.root[|skip|..]
    ensures |a.segs| > 1 ==> a.segs[0] == NODE_MODULES
  {
    hide Ops, ApplyAll;
    var ops := Ops(m, skip);
    LastWriteWins(ops, a);
    var i :| 0 <= i < |ops| && Touches(ops[i], a);
    WriteShape(m, skip, ops[i]);
    if ops[i].Place? { RealShape(ops[i].segs); }
    if j :| 0 <= j < |ops| && Writes(ops[j], a) {
      var k := LastWriteExists(ops, a, j);
      WriteShape(m, skip, ops[k]);
    }
  }
}
