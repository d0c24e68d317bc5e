/**
 buildFuseTree: the daemon's input is computed from the location tree and the bin links, and
 means the same as the locator map it came from.
 */
module FuseTree {
  import opened FuseTypes
  import opened Wrappers
  import opened Locations

  /** The shape the daemon reads. */
  datatype FuseNode = FuseNode(link: LinkType, target: Option<Path>, children: map<string, FuseNode>)

  type BinMap = map<Path, map<string, Path>>

  const BIN := ".bin"

  // ----- Well-formed forests -----

  ghost predicate Distinct<T>(s: seq<T>) {
    forall i, j :: 0 <= i < j < |s| ==> s[i] != s[j]
  }

  /** The children's names and the roots are listed once each, and exactly those that exist. */
  ghost predicate WellFormed(f: Forest) {
    && (forall a :: a in f.nodes ==> Distinct(f.nodes[a].order))
    && (forall a: Addr, s: string :: a in f.nodes ==> (s in f.nodes[a].order <==> a.Child(s) in f.nodes))
    && (forall a: Addr, s: string :: a.Child(s) in f.nodes ==> a in f.nodes)
    && Distinct(f.order) && (forall r :: r in f.order <==> Addr(r, []) in f.nodes)
  }

  lemma {:induction false} DistinctSnoc<T>(s: seq<T>, x: T)
    requires Distinct(s) && x !in s
    ensures Distinct(s + [x])
  {
  }

  lemma {:induction false} EmptyDistinct()
    ensures Distinct(EMPTY.order)
  {
  }

  lemma {:induction false} EnsureChildWellFormed(f: Forest, a: Addr, s: string)
    requires WellFormed(f) && a in f.nodes
    ensures WellFormed(EnsureChild(f, a, s))
  {
    if a.Child(s) !in f.nodes {
      var g := EnsureChild(f, a, s);
      DistinctSnoc(f.nodes[a].order, s);
      hide Distinct;
      EmptyDistinct();
      forall b: Addr, t: string | b in g.nodes ensures t in g.nodes[b].order <==> b.Child(t) in g.nodes {
        if b.Child(t) == a.Child(s) { ChildInjective(b, t, a, s); }
      }
      forall b: Addr, t: string | b.Child(t) in g.nodes ensures b in g.nodes {
        if b.Child(t) == a.Child(s) { ChildInjective(b, t, a, s); }
      }
    }
  }

  lemma {:induction false} EnsureRootWellFormed(f: Forest, root: Path)
    requires WellFormed(f)
    ensures WellFormed(EnsureRoot(f, root))
  {
    if Addr(root, []) !in f.nodes {
      DistinctSnoc(f.order, root);
      hide Distinct;
      EmptyDistinct();
      assert forall b: Addr, t: string :: b.Child(t) != Addr(root, []);
    }
  }

  lemma {:induction false} DescendWellFormed(f: Forest, root: Path, segs: seq<string>)
    requires WellFormed(f)
    ensures WellFormed(Descend(f, root, segs))
    decreases |segs|
  {
    hide WellFormed;
    EnsureRootWellFormed(f, root);
    if segs != [] {
      var up := segs[..|segs| - 1];
      DescendWellFormed(f, root, up);
      EnsureChildWellFormed(Descend(f, root, up), Addr(root, Real(up)), segs[|segs| - 1]);
    }
  }

  lemma {:induction false} RootPresent(f: Forest, root: Path)
    ensures Addr(root, []) in EnsureRoot(f, root).nodes
  {
  }

  lemma {:induction false} ApplyWellFormed(f: Forest, op: Op)
    requires WellFormed(f)
    ensures WellFormed(Apply(f, op))
  {
    hide Distinct, Descend, EnsureRoot;
    match op {
      case Mark(root, _) => EnsureRootWellFormed(f, root); RootPresent(f, root);
      case Place(root, segs, _, _, _) => DescendWellFormed(f, root, segs);
    }
  }

  lemma {:induction false} NothingWellFormed()
    ensures WellFormed(Forest([], map[]))
  {
  }

  lemma {:induction false} BuiltWellFormed(ops: seq<Op>)
    ensures WellFormed(ApplyAll(ops))
  {
    hide WellFormed, Apply;
    if ops == [] {
      NothingWellFormed();
    } else {
      BuiltWellFormed(ops[..|ops| - 1]);
      ApplyWellFormed(ApplyAll(ops[..|ops| - 1]), ops[|ops| - 1]);
    }
  }

  // ----- Insertion order -----

  /** A node's children so far, in order. */
  function OrderAt(f: Forest, a: Addr): seq<string> {
    if a in f.nodes then f.nodes[a].order else []
  }

  /** Nothing is added, or one child at the end that was not there. */
  ghost predicate AddsLast(before: seq<string>, after: seq<string>, f: Forest, a: Addr, root: Path, segs: seq<string>) {
    after == before
    || exists s: string :: after == before + [s] && a.Child(s) !in f.nodes && a.root == root && a.Child(s).segs <= segs
  }

  lemma {:induction false} EnsureChildOrder(g: Forest, p: Addr, s: string, a: Addr)
    requires p in g.nodes
    ensures OrderAt(EnsureChild(g, p, s), a)
            == if a == p && p.Child(s) !in g.nodes then OrderAt(g, a) + [s] else OrderAt(g, a)
  {
    assert p.Child(s) != p by { assert |p.Child(s).segs| == |p.segs| + 1; }
  }

  lemma {:induction false} DescendOrder(f: Forest, root: Path, segs: seq<string>, a: Addr)
    ensures AddsLast(OrderAt(f, a), OrderAt(Descend(f, root, segs), a), f, a, root, Real(segs))
    decreases |segs|
  {
    if segs != [] {
      var up, s := segs[..|segs| - 1], segs[|segs| - 1];
      var g := Descend(f, root, up);
      DescendOrder(f, root, up, a);
      DescendAdds(f, root, up);
      if s != "." {
        EnsureChildOrder(g, Addr(root, Real(up)), s, a);
        assert Real(segs) == Real(up) + [s];
        hide Descend, EnsureChild;
        if a == Addr(root, Real(up)) {
          assert OrderAt(g, a) == OrderAt(f, a);
        } else if t: string :|
            OrderAt(g, a) == OrderAt(f, a) + [t] && a.Child(t) !in f.nodes && a.Child(t).segs <= Real(up)
        {
          PrefixSnoc(a.Child(t).segs, Real(up), s);
        }
      }
    }
  }

  lemma {:induction false} ApplyOrder(f: Forest, op: Op, a: Addr)
    ensures OrderAt(Apply(f, op), a) == OrderAt(f, a)
            || exists s: string :: OrderAt(Apply(f, op), a) == OrderAt(f, a) + [s] && a.Child(s) !in f.nodes
                                   && Touches(op, a.Child(s))
  {
    if op.Place? { DescendOrder(f, op.root, op.segs, a); }
    hide Descend, Real;
  }

  lemma {:induction false} DescendRootOrder(f: Forest, root: Path, segs: seq<string>)
    ensures Descend(f, root, segs).order == EnsureRoot(f, root).order
    decreases |segs|
  {
    if segs != [] { DescendRootOrder(f, root, segs[..|segs| - 1]); }
  }

  lemma {:induction false} ApplyRootOrder(f: Forest, op: Op)
    ensures Apply(f, op).order == f.order
            || (Apply(f, op).order == f.order + [op.root] && Addr(op.root, []) !in f.nodes)
  {
    if op.Place? { DescendRootOrder(f, op.root, op.segs); }
    hide Descend;
  }

  /** Write x is the first one that passes through the address. */
  ghost predicate FirstTouch(ops: seq<Op>, a: Addr, x: int) {
    0 <= x < |ops| && Touches(ops[x], a) && forall y :: 0 <= y < x ==> !Touches(ops[y], a)
  }

  lemma {:induction false} TouchBefore(ops: seq<Op>, a: Addr, x: int)
    requires ops != [] && FirstTouch(ops, a, x)
    ensures a in ApplyAll(ops[..|ops| - 1]).nodes <==> x < |ops| - 1
    ensures x < |ops| - 1 ==> FirstTouch(ops[..|ops| - 1], a, x)
  {
    hide Touches, ApplyAll;
    var init := ops[..|ops| - 1];
    NodeExists(init, a);
    assert forall y :: 0 <= y < |init| ==> init[y] == ops[y];
  }

  lemma {:induction false} FirstTouchRange(ops: seq<Op>, a: Addr, x: int)
    requires FirstTouch(ops, a, x)
    ensures 0 <= x < |ops|
  {
  }

  lemma {:induction false} ListedExists(f: Forest, a: Addr, order: seq<string>)
    requires WellFormed(f) && order == OrderAt(f, a)
    ensures forall i :: 0 <= i < |order| ==> a.Child(order[i]) in f.nodes
  {
  }

  /** Children stand in the order in which the writes first reached them. */
  lemma {:induction false} ChildrenInWriteOrder(ops: seq<Op>, a: Addr, i: nat, j: nat, x: int, y: int)
    requires a in ApplyAll(ops).nodes && i < j < |ApplyAll(ops).nodes[a].order|
    requires FirstTouch(ops, a.Child(ApplyAll(ops).nodes[a].order[i]), x)
    requires FirstTouch(ops, a.Child(ApplyAll(ops).nodes[a].order[j]), y)
    ensures x < y
    decreases |ops|
  {
    hide Apply, Touches, WellFormed, FirstTouch;
    var m := |ops| - 1;
    var init := ops[..m];
    var order := OrderAt(ApplyAll(ops), a);
    var before := OrderAt(ApplyAll(init), a);
    TouchBefore(ops, a.Child(order[i]), x);
    TouchBefore(ops, a.Child(order[j]), y);
    ApplyOrder(ApplyAll(init), ops[m], a);
    BuiltWellFormed(init);
    ListedExists(ApplyAll(init), a, before);
    FirstTouchRange(ops, a.Child(order[j]), y);
    if j < |before| {
      assert before[i] == order[i] && before[j] == order[j];
      ChildrenInWriteOrder(init, a, i, j, x, y);
    } else {
      assert before[i] == order[i];
      assert a.Child(order[j]) !in ApplyAll(init).nodes;
    }
  }

  predicate IsRoot(f: Forest, root: Path) {
    Addr(root, []) in f.nodes
  }

  lemma {:induction false} RootsListed(f: Forest)
    requires WellFormed(f)
    ensures forall r :: r in f.order ==> IsRoot(f, r)
  {
  }

  /** So do the location roots. */
  lemma {:induction false} RootsInWriteOrder(ops: seq<Op>, i: nat, j: nat, x: int, y: int)
    requires i < j < |ApplyAll(ops).order|
    requires FirstTouch(ops, Addr(ApplyAll(ops).order[i], []), x)
    requires FirstTouch(ops, Addr(ApplyAll(ops).order[j], []), y)
    ensures x < y
    decreases |ops|
  {
    hide Apply, Touches, WellFormed, FirstTouch;
    var m := |ops| - 1;
    var init := ops[..m];
    var order, before := ApplyAll(ops).order, ApplyAll(init).order;
    TouchBefore(ops, Addr(order[i], []), x);
    TouchBefore(ops, Addr(order[j], []), y);
    ApplyRootOrder(ApplyAll(init), ops[m]);
    BuiltWellFormed(init);
    RootsListed(ApplyAll(init));
    FirstTouchRange(ops, Addr(order[j], []), y);
    assert before[i] == order[i] && IsRoot(ApplyAll(init), before[i]) by { assert before[i] in before; }
    if j < |before| {
      assert before[j] == order[j] && IsRoot(ApplyAll(init), before[j]) by { assert before[j] in before; }
      RootsInWriteOrder(init, i, j, x, y);
    } else {
      assert Addr(order[j], []) !in ApplyAll(init).nodes;
    }
  }

  ghost predicate NoDeeper(addrs: set<Addr>, b: nat) {
    forall a :: a in addrs ==> |a.segs| <= b
  }

  lemma {:induction false} DepthExists(addrs: set<Addr>)
    ensures exists b: nat :: NoDeeper(addrs, b)
    decreases addrs
  {
    if addrs == {} {
      assert NoDeeper(addrs, 0);
    } else {
      var x :| x in addrs;
      DepthExists(addrs - {x});
      var b: nat :| NoDeeper(addrs - {x}, b);
      assert forall a :: a in addrs ==> a == x || a in addrs - {x};
      assert NoDeeper(addrs, if |x.segs| <= b then b else |x.segs|);
    }
  }

  /** A bound on the depth of the trees, for termination. */
  ghost function Depth(f: Forest): (b: nat)
    ensures forall a :: a in f.nodes ==> |a.segs| <= b
  {
    DepthExists(f.nodes.Keys);
    var b: nat :| NoDeeper(f.nodes.Keys, b);
    b
  }

  // ----- The output -----

  /** mapNode. */
  function MapNode(f: Forest, a: Addr): FuseNode
    requires WellFormed(f) && a in f.nodes
    decreases Depth(f) - |a.segs|
  {
    var r := f.nodes[a];
    FuseNode(r.link, r.target, map s | s in r.order :: MapNode(f, a.Child(s)))
  }

  function BinLink(target: Path): FuseNode {
    FuseNode(SOFT, Some(target), map[])
  }

  function BinDir(node: FuseNode): FuseNode {
    if BIN in node.children then node.children[BIN] else FuseNode(HARD, None, map[])
  }

  /** The bin links with the given names. */
  function Links(bins: map<string, Path>, names: set<string>): map<string, FuseNode> {
    map n | n in names && n in bins :: BinLink(bins[n])
  }

  function AddBins(node: FuseNode, bins: map<string, Path>): FuseNode {
    var dir := BinDir(node);
    node.(children := node.children[BIN := dir.(children := dir.children + Links(bins, bins.Keys))])
  }

  lemma {:induction false} LinksNone(base: map<string, FuseNode>, bins: map<string, Path>)
    ensures base + Links(bins, {}) == base
  {
  }

  lemma {:induction false} LinksStep(base: map<string, FuseNode>, bins: map<string, Path>, names: set<string>,
                                     name: string)
    requires name in bins
    ensures base + Links(bins, names + {name}) == (base + Links(bins, names))[name := BinLink(bins[name])]
  {
  }

  /** ppath.join of a location root and a child's name. */
  function MountKey(root: Path, name: string): Path {
    NonEmpty(root) + [name]
  }

  /** One mount: the mapped child, with the root's bin links in its .bin directory. */
  function Mount(f: Forest, bins: BinMap, root: Path, name: string): FuseNode
    requires WellFormed(f) && Addr(root, [name]) in f.nodes
  {
    var node := MapNode(f, Addr(root, [name]));
    if root in bins then AddBins(node, bins[root]) else node
  }

  function RootMounts(f: Forest, bins: BinMap, root: Path, names: seq<string>, m: map<Path, FuseNode>)
    : map<Path, FuseNode>
    requires WellFormed(f) && forall s :: s in names ==> Addr(root, [s]) in f.nodes
  {
    if names == [] then m
    else
      var s := names[|names| - 1];
      RootMounts(f, bins, root, names[..|names| - 1], m)[MountKey(root, s) := Mount(f, bins, root, s)]
  }

  lemma {:induction false} ChildrenPresent(f: Forest, r: Path)
    requires WellFormed(f) && IsRoot(f, r)
    ensures forall s :: s in f.nodes[Addr(r, [])].order <==> Addr(r, [s]) in f.nodes
  {
    forall s: string ensures Addr(r, []).Child(s) == Addr(r, [s]) { assert [] + [s] == [s]; }
  }

  /** All mounts of the given roots; a SOFT root has none. */
  function Mounts(f: Forest, bins: BinMap, roots: seq<Path>): map<Path, FuseNode>
    requires WellFormed(f) && forall r :: r in roots ==> IsRoot(f, r)
  {
    if roots == [] then map[]
    else
      var r := roots[|roots| - 1];
      var m := Mounts(f, bins, roots[..|roots| - 1]);
      assert IsRoot(f, r);
      if f.nodes[Addr(r, [])].link.SOFT? then m
      else
        ChildrenPresent(f, r);
        RootMounts(f, bins, r, f.nodes[Addr(r, [])].order, m)
  }

  /** The loop over one root's bin links, on the mapped node. */
  method AttachBins(node: FuseNode, bins: map<string, Path>) returns (out: FuseNode)
    ensures out == AddBins(node, bins)
  {
    hide Links, BIN;
    var binDir := if BIN in node.children then node.children[BIN] else FuseNode(HARD, None, map[]);
    var todo := bins.Keys;
    ghost var base := binDir.children;
    LinksNone(base, bins);
    assert bins.Keys - todo == {};
    while todo != {}
      invariant todo <= bins.Keys
      invariant binDir == BinDir(node).(children := base + Links(bins, bins.Keys - todo))
      decreases |todo|
    {
      var binName :| binName in todo;
      LinksStep(base, bins, bins.Keys - todo, binName);
      assert bins.Keys - (todo - {binName}) == bins.Keys - todo + {binName};
      binDir := binDir.(children := binDir.children[binName := FuseNode(SOFT, Some(bins[binName]), map[])]);
      todo := todo - {binName};
    }
    assert bins.Keys - todo == bins.Keys;
    out := node.(children := node.children[BIN := binDir]);
  }

  /** buildFuseTree as the plugin runs it. */
  method BuildFuseTree(f: Forest, bins: BinMap) returns (result: map<Path, FuseNode>)
    requires WellFormed(f)
    ensures result == Mounts(f, bins, f.order)
  {
    hide MapNode, AddBins, MountKey, Distinct;
    result := map[];
    for i := 0 to |f.order|
      invariant result == Mounts(f, bins, f.order[..i])
    {
      var key := f.order[i];
      var value := f.nodes[Addr(key, [])];
      ghost var before := result;
      assert f.order[..i + 1][..i] == f.order[..i];
      if value.link == SOFT {
        continue;
      }
      ChildrenPresent(f, key);
      hide WellFormed, Mounts;
      for j := 0 to |value.order|
        invariant result == RootMounts(f, bins, key, value.order[..j], before)
      {
        var chName := value.order[j];
        assert value.order[..j + 1][..j] == value.order[..j];
        var root := MountKey(key, chName);
        var node := MapNode(f, Addr(key, [chName]));
        if key in bins {
          node := AttachBins(node, bins[key]);
        }
        result := result[root := node];
      }
      assert value.order[..|value.order|] == value.order;
    }
    assert f.order[..|f.order|] == f.order;
  }

  // ----- What the output means -----

  /** The node at a path below a node. */
  function Follow(node: FuseNode, segs: seq<string>): Option<FuseNode>
    decreases |segs|
  {
    if segs == [] then Some(node)
    else if segs[0] in node.children then Follow(node.children[segs[0]], segs[1..])
    else None
  }

  function NodeAt(mounts: map<Path, FuseNode>, key: Path, segs: seq<string>): Option<FuseNode> {
    if key in mounts then Follow(mounts[key], segs) else None
  }

  lemma {:induction false} NoNodeBelow(f: Forest, a: Addr, segs: seq<string>)
    requires WellFormed(f) && a !in f.nodes
    ensures Addr(a.root, a.segs + segs) !in f.nodes
    decreases |segs|
  {
    hide Distinct;
    if segs == [] {
      assert a.segs + segs == a.segs;
    } else {
      var m := |segs| - 1;
      NoNodeBelow(f, a, segs[..m]);
      assert Addr(a.root, a.segs + segs) == Addr(a.root, a.segs + segs[..m]).Child(segs[m]) by {
        assert a.segs + segs == a.segs + segs[..m] + [segs[m]];
      }
    }
  }

  /** The mapped node shows exactly the nodes of the forest below it. */
  lemma {:induction false} FollowMapped(f: Forest, a: Addr, segs: seq<string>)
    requires WellFormed(f) && a in f.nodes
    ensures Follow(MapNode(f, a), segs).Some? <==> Addr(a.root, a.segs + segs) in f.nodes
    ensures Addr(a.root, a.segs + segs) in f.nodes ==>
              Follow(MapNode(f, a), segs) == Some(MapNode(f, Addr(a.root, a.segs + segs)))
    decreases |segs|
  {
    if segs == [] {
      assert a.segs + segs == a.segs;
    } else {
      var c := a.Child(segs[0]);
      assert a.segs + segs == c.segs + segs[1..];
      if c in f.nodes {
        FollowMapped(f, c, segs[1..]);
      } else {
        NoNodeBelow(f, c, segs[1..]);
      }
    }
  }

  /** A bin link takes this path of the mount of (root, name), or is the directory made for them. */
  predicate BinPath(bins: BinMap, root: Path, segs: seq<string>) {
    root in bins && |segs| >= 2 && segs[0] == BIN && segs[1] in bins[root]
  }

  lemma {:induction false} FollowBin(f: Forest, bins: BinMap, root: Path, name: string, segs: seq<string>)
    requires WellFormed(f) && Addr(root, [name]) in f.nodes && root in bins && segs != [] && segs[0] == BIN
    ensures var dir := BinDir(MapNode(f, Addr(root, [name])));
            Follow(Mount(f, bins, root, name), segs)
            == Follow(dir.(children := dir.children + Links(bins[root], bins[root].Keys)), segs[1..])
    ensures var old' := Follow(MapNode(f, Addr(root, [name])), segs);
            var found := Follow(Mount(f, bins, root, name), segs);
            if BinPath(bins, root, segs) then
              found == if |segs| == 2 then Some(BinLink(bins[root][segs[1]])) else None
            else if segs == [BIN] then
              found.Some? && found.value.link == (if old'.Some? then old'.value.link else HARD)
              && found.value.target == if old'.Some? then old'.value.target else None
            else found == old'
  {
    hide WellFormed, MapNode;
    var node := MapNode(f, Addr(root, [name]));
    var dir := BinDir(node);
    var full := dir.(children := dir.children + Links(bins[root], bins[root].Keys));
    assert Mount(f, bins, root, name).children[BIN] == full;
    if |segs| == 1 {
      assert segs[1..] == [];
    } else {
      assert Follow(full, segs[1..])
             == if segs[1] in full.children then Follow(full.children[segs[1]], segs[1..][1..]) else None;
      if BinPath(bins, root, segs) {
        assert full.children[segs[1]] == BinLink(bins[root][segs[1]]);
        assert |segs| == 2 ==> segs[1..][1..] == [];
      }
    }
  }

  /** Below a mount: bin links where they are, and otherwise exactly the nodes of the forest. */
  lemma {:induction false} FollowMount(f: Forest, bins: BinMap, root: Path, name: string, segs: seq<string>)
    requires WellFormed(f) && Addr(root, [name]) in f.nodes
    ensures var found := Follow(Mount(f, bins, root, name), segs);
            var a := Addr(root, [name] + segs);
            if BinPath(bins, root, segs) then
              found == if |segs| == 2 then Some(BinLink(bins[root][segs[1]])) else None
            else if root in bins && segs == [BIN] && a !in f.nodes then
              found.Some? && found.value.link.HARD? && found.value.target.None?
            else
              && (found.Some? <==> a in f.nodes)
              && (found.Some? ==> found.value.link == f.nodes[a].link && found.value.target == f.nodes[a].target)
  {
    hide WellFormed;
    var node := MapNode(f, Addr(root, [name]));
    FollowMapped(f, Addr(root, [name]), segs);
    if root in bins && segs != [] && segs[0] == BIN {
      FollowBin(f, bins, root, name, segs);
    } else if root in bins && segs != [] {
      assert Mount(f, bins, root, name).children == node.children[BIN := AddBins(node, bins[root]).children[BIN]];
    }
  }

  /** Roots that have children are clean, so a mount's key determines its root and name. */
  ghost predicate CleanRoots(f: Forest) {
    forall a :: a in f.nodes && a.segs != [] ==> CleanPath(a.root)
  }

  ghost predicate IsMount(f: Forest, root: Path, name: string) {
    Addr(root, [name]) in f.nodes && IsRoot(f, root) && f.nodes[Addr(root, [])].link.HARD?
  }

  lemma {:induction false} MountKeyInjective(root: Path, name: string, root': Path, name': string)
    requires CleanPath(root) && CleanPath(root') && MountKey(root, name) == MountKey(root', name')
    ensures root == root' && name == name'
  {
    NonEmptyClean(root);
    NonEmptyClean(root');
    hide NonEmpty;
    assert root == (root + [name])[..|root|] && root' == (root' + [name'])[..|root'|];
    assert name == (root + [name])[|root|] && name' == (root' + [name'])[|root'|];
  }

  /** Some mount of the given root and names has this key. */
  ghost predicate Named(root: Path, names: seq<string>, key: Path) {
    exists s :: s in names && key == MountKey(root, s)
  }

  lemma {:induction false} RootMountsAre(f: Forest, bins: BinMap, root: Path, names: seq<string>,
                                         m: map<Path, FuseNode>, key: Path)
    requires WellFormed(f) && (forall s :: s in names ==> Addr(root, [s]) in f.nodes)
        && (names != [] ==> CleanPath(root))
    ensures key in RootMounts(f, bins, root, names, m) <==> key in m || Named(root, names, key)
    ensures forall s :: s in names && key == MountKey(root, s) ==>
        RootMounts(f, bins, root, names, m)[key] == Mount(f, bins, root, s)
    ensures key in m && !Named(root, names, key) ==> RootMounts(f, bins, root, names, m)[key] == m[key]
    decreases |names|
  {
    hide WellFormed, MountKey, Mount;
    if names != [] {
      var n := |names| - 1;
      RootMountsAre(f, bins, root, names[..n], m, key);
      assert names == names[..n] + [names[n]];
      forall s | s in names && key == MountKey(root, s)
        ensures RootMounts(f, bins, root, names, m)[key] == Mount(f, bins, root, s)
      {
        if key == MountKey(root, names[n]) { MountKeyInjective(root, s, root, names[n]); }
      }
    }
  }

  /** The mounts of the given roots are exactly their children, unless the root is SOFT. */
  lemma {:induction false} MountsAre(f: Forest, bins: BinMap, roots: seq<Path>, key: Path)
    requires WellFormed(f) && CleanRoots(f) && forall r :: r in roots ==> IsRoot(f, r)
    ensures key in Mounts(f, bins, roots) <==> exists r, s :: r in roots && IsMount(f, r, s) && key == MountKey(r, s)
    ensures forall r, s :: r in roots && IsMount(f, r, s) && key == MountKey(r, s) ==>
              Mounts(f, bins, roots)[key] == Mount(f, bins, r, s)
    decreases |roots|
  {
    hide WellFormed, MountKey, Mount, RootMounts;
    if roots != [] {
      var n := |roots| - 1;
      var r := roots[n];
      var before := roots[..n];
      assert roots == before + [r] && IsRoot(f, r);
      MountsAre(f, bins, before, key);
      var m := Mounts(f, bins, before);
      ChildrenPresent(f, r);
      var names := f.nodes[Addr(r, [])].order;
      if f.nodes[Addr(r, [])].link.HARD? {
        assert names != [] ==> CleanPath(r) by { if names != [] { assert Addr(r, [names[0]]) in f.nodes; } }
        RootMountsAre(f, bins, r, names, m, key);
      }
      forall q, s | q in roots && IsMount(f, q, s) && key == MountKey(q, s)
        ensures key in Mounts(f, bins, roots) && Mounts(f, bins, roots)[key] == Mount(f, bins, q, s)
      {
        if q == r {
          assert s in names;
        } else {
          assert q in before;
          if t :| f.nodes[Addr(r, [])].link.HARD? && t in names && key == MountKey(r, t) {
            assert CleanPath(q) by { assert Addr(q, [s]).segs != []; }
            MountKeyInjective(q, s, r, t);
          }
        }
      }
      if key in Mounts(f, bins, roots) && key !in m {
        assert Named(r, names, key);
        var s :| s in names && key == MountKey(r, s);
        assert IsMount(f, r, s);
      }
    }
  }

  lemma {:induction false} MountAt(f: Forest, bins: BinMap, root: Path, name: string)
    requires WellFormed(f) && CleanRoots(f) && IsMount(f, root, name)
    ensures MountKey(root, name) in Mounts(f, bins, f.order)
    ensures Mounts(f, bins, f.order)[MountKey(root, name)] == Mount(f, bins, root, name)
  {
    hide MountKey, Mount, Mounts;
    MountsAre(f, bins, f.order, MountKey(root, name));
  }

  lemma {:induction false} BuiltIsClean(m: LocatorMap, skip: Path)
    requires AllInside(m, skip) && CleanPath(skip)
    ensures WellFormed(ApplyAll(Ops(m, skip))) && CleanRoots(ApplyAll(Ops(m, skip)))
  {
    hide Ops, ApplyAll;
    BuiltWellFormed(Ops(m, skip));
    forall a | a in ApplyAll(Ops(m, skip)).nodes && a.segs != [] ensures CleanPath(a.root) {
      StoredLocatorsAreKeys(m, skip, a);
    }
  }

  /** The daemon's input for a locator map and a table of bin links. */
  ghost function Compile(m: LocatorMap, skip: Path, bins: BinMap): map<Path, FuseNode>
    requires AllInside(m, skip) && CleanPath(skip)
  {
    BuiltIsClean(m, skip);
    var f := ApplyAll(Ops(m, skip));
    Mounts(f, bins, f.order)
  }

  /** The last package of the map that writes this location root, by a mark or as a location, is SOFT. */
  ghost predicate SoftRoot(m: LocatorMap, skip: Path, root: Path)
    requires AllInside(m, skip)
  {
    exists i: nat :: LastWriter(m, skip, Addr(root, []), i) && m[i].1.link.SOFT?
  }

  lemma {:induction false} SoftRootIs(m: LocatorMap, skip: Path, root: Path)
    requires AllInside(m, skip) && Addr(root, []) in ApplyAll(Ops(m, skip)).nodes
    ensures SoftRoot(m, skip, root) <==> ApplyAll(Ops(m, skip)).nodes[Addr(root, [])].link.SOFT?
  {
    hide Ops, ApplyAll, AllInside, LastWriter;
    TreeMeansMap(m, skip, Addr(root, []));
  }

  lemma {:induction false} ParentsExist(f: Forest, root: Path, some: seq<string>, more: seq<string>)
    requires WellFormed(f) && Addr(root, some + more) in f.nodes
    ensures Addr(root, some) in f.nodes
    decreases |more|
  {
    hide Distinct;
    if more == [] {
      assert some + more == some;
    } else {
      var n := |more| - 1;
      assert some + more == some + more[..n] + [more[n]];
      assert Addr(root, some + more) == Addr(root, some + more[..n]).Child(more[n]);
      ParentsExist(f, root, some, more[..n]);
    }
  }

  lemma {:induction false} NodeIsFound(f: Forest, bins: BinMap, a: Addr)
    requires WellFormed(f) && CleanRoots(f) && a in f.nodes && a.segs != []
    requires Addr(a.root, []) in f.nodes ==> f.nodes[Addr(a.root, [])].link.HARD?
    requires !BinPath(bins, a.root, a.segs[1..])
    ensures var found := NodeAt(Mounts(f, bins, f.order), MountKey(a.root, a.segs[0]), a.segs[1..]);
            found.Some? && found.value.link == f.nodes[a].link && found.value.target == f.nodes[a].target
  {
    hide MountKey, Mounts, Mount, WellFormed, CleanRoots, BinPath, Follow;
    var name, rest := a.segs[0], a.segs[1..];
    assert [name] + rest == a.segs && [] + a.segs == a.segs;
    ParentsExist(f, a.root, [name], rest);
    ParentsExist(f, a.root, [], a.segs);
    MountAt(f, bins, a.root, name);
    FollowMount(f, bins, a.root, name, rest);
  }

  lemma {:induction false} RealHasNoDot(segs: seq<string>)
    ensures "." !in Real(segs)
  {
    if segs != [] { RealHasNoDot(segs[..|segs| - 1]); }
  }

  lemma {:induction false} Regroup(root: Path, segs: seq<string>)
    requires segs != []
    ensures root + [segs[0]] + segs[1..] == root + segs
  {
  }

  /** Without "." below the project, a mount's key and the names below it spell the location. */
  lemma {:induction false} KeyIsLocation(location: Path, skip: Path)
    requires skip <= location && CleanPath(skip) && "." !in location[|skip|..]
    requires Spot(location, skip).segs != []
    ensures var a := Spot(location, skip);
            MountKey(a.root, a.segs[0]) + a.segs[1..] == skip + NonEmpty(location[|skip|..])
  {
    hide NonEmpty, PositionOf, ParseLocation, Real;
    ParseKeepsLocation(location, skip);
    LocationShape(location, skip);
    var p := ParseLocation(location, skip).value;
    NonEmptyClean(p.root);
    if location == skip {
      ProjectLocation(skip);
    } else {
      assert "." !in p.segs by {
        NonEmptyKeeps(location[|skip|..]);
        assert forall s :: s in p.segs ==> s in p.root + p.segs;
        assert p.segs == (p.root + p.segs)[|p.root|..] == (skip + NonEmpty(location[|skip|..]))[|p.root|..];
        assert forall s :: s in p.segs ==> s in NonEmpty(location[|skip|..]);
      }
      RealIs(p.segs);
      Regroup(p.root, p.segs);
    }
  }

  /** Only locations, not marks, write below a location root. */
  lemma {:induction false} PutterIsWriter(m: LocatorMap, skip: Path, a: Addr, i: nat)
    requires AllInside(m, skip) && a.segs != []
    ensures LastPutter(m, skip, a, i) <==> LastWriter(m, skip, a, i)
  {
    hide AllInside, Puts;
  }

  lemma {:induction false} BuiltNodeIs(m: LocatorMap, skip: Path, a: Addr)
    requires AllInside(m, skip) && a.segs != [] && a in ApplyAll(Ops(m, skip)).nodes
    ensures var r := ApplyAll(Ops(m, skip)).nodes[a];
            && (forall j: nat :: LastPutter(m, skip, a, j) ==> r.link == m[j].1.link && r.target == Some(m[j].1.target))
            && ((forall j: nat :: !LastPutter(m, skip, a, j)) ==> r.link == HARD && r.target == None)
  {
    hide Ops, ApplyAll, AllInside, LastWriter, LastPutter, Reached;
    TreeMeansMap(m, skip, a);
    forall j: nat ensures LastPutter(m, skip, a, j) <==> LastWriter(m, skip, a, j) {
      PutterIsWriter(m, skip, a, j);
    }
  }

  lemma {:induction false} RootReached(m: LocatorMap, skip: Path, a: Addr)
    requires AllInside(m, skip) && CleanPath(skip) && a in ApplyAll(Ops(m, skip)).nodes && a.segs != []
    ensures Addr(a.root, []) in ApplyAll(Ops(m, skip)).nodes
    ensures Addr(a.root, [a.segs[0]]) in ApplyAll(Ops(m, skip)).nodes
  {
    hide Ops, ApplyAll, WellFormed, CleanRoots;
    BuiltIsClean(m, skip);
    assert [] + a.segs == a.segs && [a.segs[0]] + a.segs[1..] == a.segs;
    ParentsExist(ApplyAll(Ops(m, skip)), a.root, [], a.segs);
    ParentsExist(ApplyAll(Ops(m, skip)), a.root, [a.segs[0]], a.segs[1..]);
  }

  lemma {:induction false} LocationIsNode(m: LocatorMap, skip: Path, i: nat, k: nat)
    requires AllInside(m, skip) && i < |m| && k < |m[i].1.locations| && skip <= m[i].1.locations[k]
    requires Spot(m[i].1.locations[k], skip).segs != []
    ensures Spot(m[i].1.locations[k], skip) in ApplyAll(Ops(m, skip)).nodes
    ensures Puts(m, skip, Spot(m[i].1.locations[k], skip), i)
  {
    hide Ops, ApplyAll, AllInside, ParseLocation, Reached;
    var a := Spot(m[i].1.locations[k], skip);
    assert PutAt(m[i].1.locations[k], skip, a) by { assert Real([]) == []; }
    PutsAt(m, skip, a, i, k);
    var j := LastWriterExists(m, skip, a, i);
    TreeMeansMap(m, skip, a);
  }

  /**
   Meaning preservation, in terms of the locator map. For every location other than the project
   directory, whose location root is not SOFT and which no bin link takes, the daemon's input has at
   that very path a node with the link type and target of the last package of the map that has a
   location there.
   */
  lemma {:induction false} MeaningPreserved(m: LocatorMap, skip: Path, bins: BinMap, i: nat, k: nat)
    requires AllInside(m, skip) && CleanPath(skip) && i < |m| && k < |m[i].1.locations|
    requires skip <= m[i].1.locations[k]
    requires var a := Spot(m[i].1.locations[k], skip);
             a.segs != [] && !SoftRoot(m, skip, a.root) && !BinPath(bins, a.root, a.segs[1..])
    ensures var a := Spot(m[i].1.locations[k], skip);
            var found := NodeAt(Compile(m, skip, bins), MountKey(a.root, a.segs[0]), a.segs[1..]);
            && ("." !in m[i].1.locations[k][|skip|..] ==>
                  MountKey(a.root, a.segs[0]) + a.segs[1..] == skip + NonEmpty(m[i].1.locations[k][|skip|..]))
            && (exists j: nat :: LastPutter(m, skip, a, j))
            && forall j: nat :: LastPutter(m, skip, a, j) ==>
                 found.Some? && found.value.link == m[j].1.link && found.value.target == Some(m[j].1.target)
  {
    var location := m[i].1.locations[k];
    hide NonEmpty, Ops, ApplyAll, ParseLocation, Real, MountKey, Mounts, NodeAt, LastPutter, Puts, SoftRoot, AllInside,
         WellFormed, CleanRoots, BinPath;
    var a := Spot(location, skip);
    if "." !in location[|skip|..] { KeyIsLocation(location, skip); }
    LocationIsNode(m, skip, i, k);
    var j0 := LastPutterExists(m, skip, a, i);
    BuiltNodeIs(m, skip, a);
    RootReached(m, skip, a);
    SoftRootIs(m, skip, a.root);
    BuiltIsClean(m, skip);
    NodeIsFound(ApplyAll(Ops(m, skip)), bins, a);
  }

  lemma {:induction false} NoMountBelowSoft(f: Forest, bins: BinMap, root: Path, name: string)
    requires WellFormed(f) && CleanRoots(f) && Addr(root, [name]) in f.nodes
    requires IsRoot(f, root) && f.nodes[Addr(root, [])].link.SOFT?
    ensures MountKey(root, name) !in Mounts(f, bins, f.order)
  {
    hide MountKey, Mount, Mounts, WellFormed;
    RootsListed(f);
    MountsAre(f, bins, f.order, MountKey(root, name));
    forall r, s | IsMount(f, r, s) ensures MountKey(r, s) != MountKey(root, name) {
      assert Addr(r, [s]).segs != [] && Addr(root, [name]).segs != [];
      if MountKey(r, s) == MountKey(root, name) { MountKeyInjective(r, s, root, name); }
    }
  }

  /** The condition on the root is exact: nothing below a SOFT root is served, whatever path one asks for. */
  lemma {:induction false} SoftRootServesNothing(m: LocatorMap, skip: Path, bins: BinMap, root: Path, name: string,
                                                 segs: seq<string>)
    requires AllInside(m, skip) && CleanPath(skip) && SoftRoot(m, skip, root) && Reached(m, skip, Addr(root, [name]))
    ensures NodeAt(Compile(m, skip, bins), MountKey(root, name), segs).None?
  {
    hide Ops, ApplyAll, MountKey, Mounts, WellFormed, CleanRoots, SoftRoot, Reached, AllInside;
    var f := ApplyAll(Ops(m, skip));
    BuiltIsClean(m, skip);
    NodesAreReached(m, skip, Addr(root, [name]));
    RootReached(m, skip, Addr(root, [name]));
    SoftRootIs(m, skip, root);
    NoMountBelowSoft(f, bins, root, name);
  }

  /**
   The mark of a SOFT package, from the map alone: unless a later package writes that directory, it is
   a SOFT location root that carries the package's locator, and nothing below it is served.
   */
  lemma {:induction false} MarkedRootServesNothing(m: LocatorMap, skip: Path, bins: BinMap, i: nat)
    requires AllInside(m, skip) && CleanPath(skip)
    requires i < |m| && m[i].1.link.SOFT? && skip <= m[i].1.target
    requires var a := Addr(m[i].1.target, []);
             forall j: nat :: i < j < |m| ==> !Marks(m, skip, a, j) && !Puts(m, skip, a, j)
    ensures var f, a := ApplyAll(Ops(m, skip)), Addr(m[i].1.target, []);
            && a in f.nodes && f.nodes[a].link.SOFT? && f.nodes[a].locator == Some(m[i].0)
            && SoftRoot(m, skip, m[i].1.target)
    ensures forall name: string, segs: seq<string> :: Reached(m, skip, Addr(m[i].1.target, [name])) ==>
              NodeAt(Compile(m, skip, bins), MountKey(m[i].1.target, name), segs).None?
  {
    hide Ops, ApplyAll, AllInside, Puts, Compile, MountKey, NodeAt, Reached;
    var a := Addr(m[i].1.target, []);
    assert Marks(m, skip, a, i) && LastWriter(m, skip, a, i);
    LastWriterWins(m, skip, a, i);
    forall name: string, segs: seq<string> | Reached(m, skip, Addr(m[i].1.target, [name]))
      ensures NodeAt(Compile(m, skip, bins), MountKey(m[i].1.target, name), segs).None?
    {
      SoftRootServesNothing(m, skip, bins, m[i].1.target, name, segs);
    }
  }

  /** What the node of the daemon's input at these names of the mount (root, name) stands for. */
  ghost predicate Meant(m: LocatorMap, skip: Path, bins: BinMap, root: Path, name: string, segs: seq<string>,
                        node: FuseNode)
    requires AllInside(m, skip)
  {
    var a := Addr(root, [name] + segs);
    || (BinPath(bins, root, segs) && |segs| == 2 && node == FuseNode(SOFT, Some(bins[root][segs[1]]), map[]))
    || (root in bins && segs == [BIN] && node.link.HARD? && node.target.None?)
    || (exists j: nat :: LastPutter(m, skip, a, j) && node.link == m[j].1.link && node.target == Some(m[j].1.target))
    || (Reached(m, skip, a) && (forall j: nat :: !LastPutter(m, skip, a, j)) && node.link.HARD? && node.target.None?)
  }

  /**
   The converse: every node of the daemon's input belongs to a mount of a root that is not SOFT, and
   is a location with the link type and target of the last package of the map that has it, or an
   intermediate directory (HARD, no target), or the directory made for bin links, or a bin link.
   */
  lemma {:induction false} EmittedNodesAreMeant(m: LocatorMap, skip: Path, bins: BinMap, key: Path, segs: seq<string>)
    requires AllInside(m, skip) && CleanPath(skip) && NodeAt(Compile(m, skip, bins), key, segs).Some?
    ensures exists root, name ::
              && key == MountKey(root, name) && Reached(m, skip, Addr(root, [name])) && !SoftRoot(m, skip, root)
              && Meant(m, skip, bins, root, name, segs, NodeAt(Compile(m, skip, bins), key, segs).value)
  {
    hide Ops, ApplyAll, MountKey, Mounts, Mount, WellFormed, CleanRoots, LastPutter, SoftRoot, Reached, AllInside;
    var f := ApplyAll(Ops(m, skip));
    BuiltIsClean(m, skip);
    assert forall r :: r in f.order ==> IsRoot(f, r) by { RootsListed(f); }
    MountsAre(f, bins, f.order, key);
    var root, name :| root in f.order && IsMount(f, root, name) && key == MountKey(root, name);
    FollowMount(f, bins, root, name, segs);
    var a := Addr(root, [name] + segs);
    NodesAreReached(m, skip, Addr(root, [name]));
    NodesAreReached(m, skip, a);
    SoftRootIs(m, skip, root);
    if a in f.nodes { BuiltNodeIs(m, skip, a); }
    var node := NodeAt(Compile(m, skip, bins), key, segs).value;
    assert Meant(m, skip, bins, root, name, segs, node);
  }
}
