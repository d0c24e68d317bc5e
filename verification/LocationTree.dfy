/**
 buildLocationTree as the plugin runs it: nested mutable maps that a moving `node` walks down and
 extends. Its result is the flat Forest of Locations, and what the writes mean there is proved
 there.
 */
module LocationTree {
  import opened FuseTypes
  import opened Wrappers
  import opened Locations

  /** `addr` is where the node sits; two nodes of one tree are never at the same place. */
  class LocationNode {
    ghost const addr: Addr
    var children: map<string, LocationNode>
    var order: seq<string>
    var locator: Option<string>
    var link: LinkType
    var target: Option<Path>

    constructor (ghost addr: Addr)
      ensures this.addr == addr && children == map[] && order == []
      ensures Content() == EMPTY
    {
      this.addr := addr;
      children, order, locator, link, target := map[], [], None, HARD, None;
    }

    ghost function Content(): Rec
      reads this
    {
      Rec(locator, link, target, order)
    }
  }

  type Table = map<Addr, LocationNode>

  /** A package written onto a node; a mark, which has no target, leaves the target as it is. */
  function Written(r: Rec, locator: string, link: LinkType, target: Option<Path>): Rec {
    var marked := r.(locator := Some(locator), link := link);
    if target.Some? then marked.(target := target) else marked
  }

  /** One more child's name. */
  function Named(r: Rec, segment: string): Rec {
    r.(order := r.order + [segment])
  }

  predicate IsChild(a: Addr, b: Addr) {
    |b.segs| == |a.segs| + 1 && b == a.Child(b.segs[|a.segs|])
  }

  /** The children a node has according to the addresses. */
  ghost function Kids(at: Table, a: Addr): map<string, LocationNode> {
    map b | b in at && IsChild(a, b) :: b.segs[|a.segs|] := at[b]
  }

  ghost function Tops(at: Table): map<Path, LocationNode> {
    map b | b in at && b.segs == [] :: b.root := at[b]
  }

  /** Every node's parent is in the table. */
  ghost predicate Closed(at: Table) {
    forall a: Addr, s: string :: a.Child(s) in at ==> a in at
  }

  lemma {:induction false} KidsAre(at: Table, a: Addr, s: string)
    ensures s in Kids(at, a) <==> a.Child(s) in at
    ensures s in Kids(at, a) ==> Kids(at, a)[s] == at[a.Child(s)]
  {
    assert IsChild(a, a.Child(s));
  }

  /** A table with one more node in it. */
  lemma {:induction false} KidsStep(at: Table, c: Addr, node: LocationNode, a: Addr)
    requires c !in at
    ensures IsChild(a, c) ==> Kids(at[c := node], a) == Kids(at, a)[c.segs[|a.segs|] := node]
    ensures !IsChild(a, c) ==> Kids(at[c := node], a) == Kids(at, a)
  {
    var more := at[c := node];
    forall t ensures t in Kids(more, a) <==> t in Kids(at, a) || (IsChild(a, c) && t == c.segs[|a.segs|]) {
      KidsAre(more, a, t);
      KidsAre(at, a, t);
    }
    forall t | t in Kids(more, a) && t in Kids(at, a) ensures Kids(more, a)[t] == Kids(at, a)[t] {
      KidsAre(more, a, t);
      KidsAre(at, a, t);
    }
    if IsChild(a, c) { KidsAre(more, a, c.segs[|a.segs|]); }
  }

  lemma {:induction false} NoKids(at: Table, a: Addr)
    requires Closed(at) && a !in at
    ensures Kids(at, a) == map[]
  {
    forall t ensures t !in Kids(at, a) { KidsAre(at, a, t); }
  }

  lemma {:induction false} TopsSame(at: Table, c: Addr, node: LocationNode)
    requires c.segs != []
    ensures Tops(at[c := node]) == Tops(at)
  {
  }

  lemma {:induction false} ClosedWithChild(at: Table, a: Addr, s: string, next: LocationNode)
    requires Closed(at) && a in at
    ensures Closed(at[a.Child(s) := next]) && Tops(at[a.Child(s) := next]) == Tops(at)
  {
    var more := at[a.Child(s) := next];
    forall x: Addr, t: string | x.Child(t) in more ensures x in more {
      if x.Child(t) == a.Child(s) { ChildInjective(x, t, a, s); }
    }
    TopsSame(at, a.Child(s), next);
  }

  /** The children maps that the addresses ask for. */
  ghost function KidMap(at: Table): map<Addr, map<string, LocationNode>> {
    map a | a in at :: Kids(at, a)
  }

  lemma {:induction false} AddChild(at: Table, a: Addr, s: string, next: LocationNode)
    requires Closed(at) && a in at && a.Child(s) !in at
    ensures var more := at[a.Child(s) := next];
            && Closed(more) && Tops(more) == Tops(at)
            && KidMap(more) == KidMap(at)[a := Kids(at, a)[s := next]][a.Child(s) := map[]]
  {
    hide Kids, Tops, Closed;
    var c := a.Child(s);
    var more := at[c := next];
    ClosedWithChild(at, a, s, next);
    KidsStep(at, c, next, a);
    assert IsChild(a, c);
    NoKids(at, c);
    KidsStep(at, c, next, c);
    forall b | b in at && b != a ensures Kids(more, b) == Kids(at, b) {
      KidsStep(at, c, next, b);
      if IsChild(b, c) { ChildInjective(a, s, b, c.segs[|b.segs|]); }
    }
  }

  lemma {:induction false} TopsAre(at: Table, root: Path)
    ensures root in Tops(at) <==> Addr(root, []) in at
    ensures root in Tops(at) ==> Tops(at)[root] == at[Addr(root, [])]
  {
    forall b | b in at && b.segs == [] && b.root == root ensures b == Addr(root, []) { }
  }

  lemma {:induction false} TopsStep(at: Table, root: Path, node: LocationNode)
    ensures Tops(at[Addr(root, []) := node]) == Tops(at)[root := node]
  {
    var more := at[Addr(root, []) := node];
    forall r ensures r in Tops(more) <==> r in Tops(at) || r == root {
      TopsAre(more, r);
      TopsAre(at, r);
    }
    forall r | r in Tops(more) ensures Tops(more)[r] == Tops(at)[root := node][r] {
      TopsAre(more, r);
      TopsAre(at, r);
    }
  }

  lemma {:induction false} ClosedWithRoot(at: Table, root: Path, node: LocationNode)
    requires Closed(at)
    ensures Closed(at[Addr(root, []) := node])
  {
    assert forall x: Addr, t: string :: x.Child(t) != Addr(root, []);
  }

  lemma {:induction false} AddRoot(at: Table, root: Path, node: LocationNode)
    requires Closed(at) && Addr(root, []) !in at
    ensures var more := at[Addr(root, []) := node];
            && Closed(more) && Tops(more) == Tops(at)[root := node]
            && KidMap(more) == KidMap(at)[Addr(root, []) := map[]]
  {
    hide Kids, Tops, Closed;
    var a := Addr(root, []);
    var more := at[a := node];
    ClosedWithRoot(at, root, node);
    TopsStep(at, root, node);
    NoKids(at, a);
    KidsStep(at, a, node, a);
    forall b | b in at ensures Kids(more, b) == Kids(at, b) {
      KidsStep(at, a, node, b);
    }
  }

  lemma {:induction false} NoSegments(f: Forest, root: Path, locator: string, link: LinkType, target: Path)
    ensures Descend(f, root, []) == EnsureRoot(f, root) && Real([]) == []
    ensures Apply(f, Place(root, [], locator, link, target)) == EnsureRoot(f, root)
  {
  }

  /** At the last segment the package is written. */
  lemma {:induction false} LastSegment(f: Forest, root: Path, segs: seq<string>, locator: string, link: LinkType,
                                       target: Path)
    requires segs != []
    ensures var g, a := Descend(f, root, segs), Addr(root, Real(segs));
            Apply(f, Place(root, segs, locator, link, target))
            == g.(nodes := g.nodes[a := Written(g.nodes[a], locator, link, Some(target))])
  {
  }

  lemma {:induction false} OneSegment(f: Forest, root: Path, segs: seq<string>, i: nat)
    requires i < |segs|
    ensures var g, a := Descend(f, root, segs[..i]), Addr(root, Real(segs[..i]));
            && (segs[i] == "." ==> Descend(f, root, segs[..i + 1]) == g && Real(segs[..i + 1]) == a.segs)
            && (segs[i] != "." ==> Descend(f, root, segs[..i + 1]) == EnsureChild(g, a, segs[i])
                                   && Addr(root, Real(segs[..i + 1])) == a.Child(segs[i]))
  {
    assert segs[..i + 1][..i] == segs[..i];
  }

  class LocationTree {
    var roots: map<Path, LocationNode>
    var order: seq<Path>
    ghost var at: Table

    /** The nested maps and the addresses describe the same nodes. */
    ghost predicate Valid()
      reads this, at.Values
    {
      && Closed(at) && roots == Tops(at)
      && (forall a :: a in at ==> at[a].addr == a)
      && Links() == KidMap(at)
    }

    /** The children maps as they are. */
    ghost function Links(): map<Addr, map<string, LocationNode>>
      reads this`at, at.Values
    {
      map a | a in at :: at[a].children
    }

    ghost function Contents(): map<Addr, Rec>
      reads this`at, at.Values
    {
      map a | a in at :: at[a].Content()
    }

    /** The tree as a value. */
    ghost function View(): Forest
      reads this, at.Values
    {
      Forest(order, Contents())
    }

    constructor ()
      ensures Valid() && View() == Forest([], map[]) && at == map[]
    {
      roots, order, at := map[], [], map[];
    }

    /** getFactoryWithDefault on the location roots. */
    method GetRoot(root: Path) returns (node: LocationNode)
      requires Valid()
      modifies this
      ensures Valid() && View() == EnsureRoot(old(View()), root)
      ensures Addr(root, []) in at && node == at[Addr(root, [])] && node.addr == Addr(root, [])
      ensures forall n :: n in at.Values ==> n in old(at.Values) || fresh(n)
    {
      hide Kids, Tops, Closed, KidMap, LocationNode.Content, LocationTree.Links, LocationTree.Contents;
      TopsAre(at, root);
      ContentsKeys();
      if root in roots {
        node := roots[root];
      } else {
        node := new LocationNode(Addr(root, []));
        AddRoot(at, root, node);
        roots := roots[root := node];
        order := order + [root];
        Register(node);
      }
    }

    lemma {:induction false} ContentsKeys()
      ensures Contents().Keys == at.Keys
    {
    }

    /** getFactoryWithDefault on a node's children. */
    method GetChild(node: LocationNode, segment: string) returns (next: LocationNode)
      requires Valid() && node.addr in at && at[node.addr] == node
      modifies this, node
      ensures Valid() && View() == EnsureChild(old(View()), node.addr, segment)
      ensures node.addr.Child(segment) in at && next == at[node.addr.Child(segment)]
      ensures next.addr == node.addr.Child(segment)
      ensures forall n :: n in at.Values ==> n in old(at.Values) || fresh(n)
    {
      hide Kids, Tops, Closed, KidMap;
      ChildrenListed(node);
      ContentsKeys();
      KidsAre(at, node.addr, segment);
      if segment in node.children {
        next := node.children[segment];
      } else {
        next := AddNode(node, segment);
      }
    }

    /** makeNode and children.set for a name that is not there yet. */
    method AddNode(node: LocationNode, segment: string) returns (next: LocationNode)
      requires Valid() && node.addr in at && at[node.addr] == node && node.addr.Child(segment) !in at
      modifies this, node
      ensures Valid() && View() == EnsureChild(old(View()), node.addr, segment)
      ensures at == old(at)[node.addr.Child(segment) := next] && fresh(next) && next.addr == node.addr.Child(segment)
    {
      hide Kids, Tops, Closed, KidMap, LocationNode.Content, LocationTree.Links, LocationTree.Contents;
      ghost var known := at.Values;
      assert forall n :: n in known ==> allocated(n);
      next := new LocationNode(node.addr.Child(segment));
      assert next !in known;
      ChildrenListed(node);
      ContentsKeys();
      AddChild(at, node.addr, segment, next);
      Attach(node, segment, next);
      Register(next);
    }

    /** The new node gets its place in the table. */
    ghost method Register(node: LocationNode)
      requires node.addr !in at
      modifies this`at
      ensures at == old(at)[node.addr := node]
      ensures Links() == old(Links())[node.addr := node.children]
      ensures Contents() == old(Contents())[node.addr := node.Content()]
    {
      at := at[node.addr := node];
    }

    lemma {:induction false} ChildrenListed(node: LocationNode)
      requires Valid() && node.addr in at && at[node.addr] == node
      ensures node.children == Kids(at, node.addr) && Contents()[node.addr] == node.Content()
    {
      hide Kids, Tops, Closed;
      assert Links()[node.addr] == node.children;
    }

    /** The writes to the parent, before the new node has its place in the table. */
    method Attach(node: LocationNode, segment: string, next: LocationNode)
      requires Valid() && node.addr in at && at[node.addr] == node
      modifies node
      ensures Links() == old(Links())[node.addr := old(node.children)[segment := next]]
      ensures Contents() == old(Contents())[node.addr := Named(old(Contents())[node.addr], segment)]
    {
      hide Kids, Tops, Closed, KidMap;
      ghost var others, f, links := at.Values - {node}, Contents(), Links();
      Snapshots();
      hide LocationTree.Contents, LocationTree.Links;
      node.children := node.children[segment := next];
      node.order := node.order + [segment];
      assert node.Content() == Named(f[node.addr], segment);
      hide LocationNode.Content;
      forall b | b in at && b != node.addr ensures at[b].Content() == f[b] && at[b].children == links[b] {
        assert at[b] in others;
      }
      OneChanged(node, f, links);
    }

    lemma {:induction false} Snapshots()
      ensures Contents().Keys == at.Keys && forall b :: b in at ==> Contents()[b] == at[b].Content()
      ensures Links().Keys == at.Keys && forall b :: b in at ==> Links()[b] == at[b].children
    {
    }

    lemma {:induction false} ContentsAre(f: map<Addr, Rec>)
      requires f.Keys == at.Keys && forall b :: b in at ==> at[b].Content() == f[b]
      ensures Contents() == f
    {
      hide LocationNode.Content;
    }

    lemma {:induction false} LinksAre(links: map<Addr, map<string, LocationNode>>)
      requires links.Keys == at.Keys && forall b :: b in at ==> at[b].children == links[b]
      ensures Links() == links
    {
    }

    /** Only `node` differs from what was recorded. */
    lemma {:induction false} OneChanged(node: LocationNode, f: map<Addr, Rec>,
                                        links: map<Addr, map<string, LocationNode>>)
      requires node.addr in at && at[node.addr] == node && f.Keys == links.Keys == at.Keys
      requires forall b :: b in at && b != node.addr ==> at[b].Content() == f[b] && at[b].children == links[b]
      ensures Contents() == f[node.addr := node.Content()] && Links() == links[node.addr := node.children]
    {
      hide LocationNode.Content, LocationTree.Contents, LocationTree.Links;
      ContentsAre(f[node.addr := node.Content()]);
      LinksAre(links[node.addr := node.children]);
    }

    /** Writes a package onto a node; a mark leaves the target as it is. */
    method Write(node: LocationNode, locator: string, link: LinkType, target: Option<Path>)
      requires Valid() && node.addr in at && at[node.addr] == node
      modifies node
      ensures Valid()
      ensures var f := old(View());
              View() == f.(nodes := f.nodes[node.addr := Written(f.nodes[node.addr], locator, link, target)])
    {
      hide Kids, Tops, Closed, KidMap, LocationTree.Links, LocationTree.Contents, LocationNode.Content;
      ContentsKeys();
      Assign(node, locator, link, target);
    }

    method Assign(node: LocationNode, locator: string, link: LinkType, target: Option<Path>)
      requires node.addr in at && at[node.addr] == node && forall a :: a in at ==> at[a].addr == a
      modifies node
      ensures Links() == old(Links())
      ensures Contents() == old(Contents())[node.addr := Written(old(Contents())[node.addr], locator, link, target)]
    {
      ghost var others, f, links := at.Values - {node}, Contents(), Links();
      Snapshots();
      hide LocationTree.Contents, LocationTree.Links;
      node.locator := Some(locator);
      node.link := link;
      if target.Some? {
        node.target := target;
      }
      assert node.Content() == Written(f[node.addr], locator, link, target);
      hide LocationNode.Content;
      ghost var g := f[node.addr := node.Content()];
      forall b | b in at ensures at[b].Content() == g[b] && at[b].children == links[b] {
        if b != node.addr {
          assert at[b] in others;
        }
      }
      ContentsAre(g);
      LinksAre(links);
    }

    /** One location of one package. */
    method PlaceAt(root: Path, segments: seq<string>, locator: string, link: LinkType, target: Path)
      requires Valid()
      modifies this, at.Values
      ensures Valid() && View() == Apply(old(View()), Place(root, segments, locator, link, target))
      ensures forall n :: n in at.Values ==> n in old(at.Values) || fresh(n)
    {
      hide LocationTree.Valid, LocationTree.View, Real, EnsureRoot, EnsureChild, Descend, Apply, Written;
      ghost var f := View();
      var node := GetRoot(root);
      NoSegments(f, root, locator, link, target);
      assert segments[..0] == [];
      for idx := 0 to |segments|
        invariant Valid() && node.addr == Addr(root, Real(segments[..idx]))
        invariant node.addr in at && at[node.addr] == node
        invariant idx == 0 || idx < |segments| ==> View() == Descend(f, root, segments[..idx])
        invariant idx > 0 && idx == |segments| ==> View() == Apply(f, Place(root, segments, locator, link, target))
        invariant forall n :: n in at.Values ==> n in old(at.Values) || fresh(n)
      {
        var segment := segments[idx];
        OneSegment(f, root, segments, idx);
        if segment != "." {
          node := GetChild(node, segment);
        }
        if idx == |segments| - 1 {
          assert segments[..idx + 1] == segments;
          LastSegment(f, root, segments, locator, link, target);
          Write(node, locator, link, Some(target));
        }
      }
    }

    /** The mark of a SOFT package on its target directory. */
    method MarkAt(root: Path, locator: string)
      requires Valid()
      modifies this, at.Values
      ensures Valid() && View() == Apply(old(View()), Mark(root, locator))
      ensures forall n :: n in at.Values ==> n in old(at.Values) || fresh(n)
    {
      hide LocationTree.Valid, LocationTree.View;
      var node := GetRoot(root);
      Write(node, locator, SOFT, None);
    }
  }

  lemma {:induction false} NoOps(f: Forest)
    ensures ApplyFrom(f, []) == f
  {
  }

  /** One more location of a package. */
  lemma {:induction false} LocationStep(f: Forest, locator: string, info: Info, skip: Path, j: nat)
    requires j < |info.locations|
    ensures var ops := PlaceOps(locator, info, info.locations[..j], skip);
            ApplyFrom(f, PlaceOps(locator, info, info.locations[..j + 1], skip))
            == Apply(ApplyFrom(f, ops), PlaceOf(locator, info, info.locations[j], skip))
    ensures Inside(info.locations[..j + 1], skip) <==> Inside(info.locations[..j], skip) && skip <= info.locations[j]
    ensures Inside(info.locations, skip) ==> skip <= info.locations[j]
  {
    hide Apply, PlaceOf;
    assert info.locations[..j + 1][..j] == info.locations[..j];
    ApplyOne(f, PlaceOps(locator, info, info.locations[..j], skip), PlaceOf(locator, info, info.locations[j], skip));
  }

  lemma {:induction false} NoLocations(f: Forest, locator: string, info: Info, skip: Path)
    ensures ApplyFrom(f, PlaceOps(locator, info, info.locations[..0], skip)) == f && Inside(info.locations[..0], skip)
  {
    assert info.locations[..0] == [];
  }

  /** The inner loop over one package's locations; `ok` is false where the plugin throws. */
  method PlaceAll(tree: LocationTree, locator: string, info: Info, skip: Path) returns (ok: bool)
    requires tree.Valid()
    modifies tree, tree.at.Values
    ensures tree.Valid() && forall n :: n in tree.at.Values ==> n in old(tree.at.Values) || fresh(n)
    ensures ok <==> Inside(info.locations, skip)
    ensures ok ==> tree.View() == ApplyFrom(old(tree.View()), PlaceOps(locator, info, info.locations, skip))
  {
    hide LocationTree.Valid, LocationTree.View, Apply, ParseLocation, ApplyFrom, PlaceOps, Inside;
    ghost var f := tree.View();
    NoLocations(f, locator, info, skip);
    for j := 0 to |info.locations|
      invariant tree.Valid() && forall n :: n in tree.at.Values ==> n in old(tree.at.Values) || fresh(n)
      invariant Inside(info.locations[..j], skip)
      invariant tree.View() == ApplyFrom(f, PlaceOps(locator, info, info.locations[..j], skip))
    {
      var location := info.locations[j];
      var parsed := ParseLocation(location, skip);
      ParseKeepsLocation(location, skip);
      LocationStep(f, locator, info, skip, j);
      if parsed.None? {
        return false;
      }
      tree.PlaceAt(parsed.value.root, parsed.value.segs, locator, info.link, info.target);
    }
    assert info.locations[..|info.locations|] == info.locations;
    ok := true;
  }

  /** One package of the locator map. */
  method AddPackage(tree: LocationTree, locator: string, info: Info, skip: Path) returns (ok: bool)
    requires tree.Valid()
    modifies tree, tree.at.Values
    ensures tree.Valid() && forall n :: n in tree.at.Values ==> n in old(tree.at.Values) || fresh(n)
    ensures ok <==> Inside(info.locations, skip)
    ensures ok ==> tree.View() == ApplyFrom(old(tree.View()), OpsOf(locator, info, skip))
  {
    hide LocationTree.Valid, LocationTree.View, Apply, Contains, ApplyFrom, PlaceOps;
    ghost var f := tree.View();
    NoOps(f);
    if info.link == SOFT {
      var internalPath := Contains(skip, info.target);
      if internalPath.Some? {
        tree.MarkAt(info.target, locator);
        ApplyOne(f, [], Mark(info.target, locator));
        assert [] + [Mark(info.target, locator)] == MarkOps(locator, info, skip);
      }
    }
    ApplyConcat(f, MarkOps(locator, info, skip), PlaceOps(locator, info, info.locations, skip));
    ok := PlaceAll(tree, locator, info, skip);
  }

  /** One more package of the map. */
  lemma {:induction false} PackageStep(f: Forest, m: LocatorMap, skip: Path, i: nat)
    requires i < |m|
    ensures ApplyFrom(f, Ops(m[..i + 1], skip)) == ApplyFrom(ApplyFrom(f, Ops(m[..i], skip)),
        OpsOf(m[i].0, m[i].1, skip))
    ensures AllInside(m[..i + 1], skip) <==> AllInside(m[..i], skip) && Inside(m[i].1.locations, skip)
    ensures AllInside(m, skip) ==> Inside(m[i].1.locations, skip)
  {
    hide Apply, ApplyFrom, OpsOf, Inside;
    assert m[..i + 1][..i] == m[..i];
    ApplyConcat(f, Ops(m[..i], skip), OpsOf(m[i].0, m[i].1, skip));
  }

  lemma {:induction false} NoPackages(f: Forest, m: LocatorMap, skip: Path)
    ensures ApplyFrom(f, Ops(m[..0], skip)) == f && AllInside(m[..0], skip)
  {
    assert m[..0] == [];
  }

  /** The whole tree; `ok` is false where the plugin throws, at a location outside the project. */
  method BuildLocationTree(m: LocatorMap, skip: Path) returns (tree: LocationTree, ok: bool)
    ensures ok <==> AllInside(m, skip)
    ensures fresh(tree) && tree.Valid()
    ensures ok ==> tree.View() == ApplyAll(Ops(m, skip))
  {
    tree := new LocationTree();
    hide LocationTree.Valid, LocationTree.View, ApplyFrom, Inside, AllInside, Ops, OpsOf;
    ghost var empty := Forest([], map[]);
    NoPackages(empty, m, skip);
    for i := 0 to |m|
      invariant fresh(tree) && fresh(tree.at.Values) && tree.Valid()
      invariant AllInside(m[..i], skip) && tree.View() == ApplyFrom(empty, Ops(m[..i], skip))
    {
      PackageStep(empty, m, skip, i);
      ok := AddPackage(tree, m[i].0, m[i].1, skip);
      if !ok {
        return;
      }
    }
    assert m[..|m|] == m;
    ok := true;
  }
}
