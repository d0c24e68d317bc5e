/**
 From the install plan to the mounted system: the daemon decodes the plugin's output into its
 dependency trees, and a walk there ends at what the locator map says about the location.
 */
module MountedSystem {
  import opened DependencyTree
  import opened FuseTree
  import opened FuseTypes
  import opened Inodes
  import opened Locations
  import opened Paths
  import opened Wrappers
  import opened ZipDir
  import opened ZipGetter
  import opened ZipIndex
  import U = UnionFs

  // ----- Decoding -----

  /** The text of a target; one that is absent decodes to the empty string. */
  function TargetText(target: Option<Path>): string {
    match target
    case None => ""
    case Some(path) => JoinSlash(path)
  }

  /** The dependency has the node's link type, target and children, whatever its inode numbers. */
  ghost predicate Decodes(dep: Dep, node: FuseNode)
    decreases node
  {
    && dep.link == node.link && dep.target == TargetText(node.target)
    && dep.children.Keys == node.children.Keys
    && forall k :: k in node.children ==> Decodes(dep.children[k], node.children[k])
  }

  /** The same for the object behind the value. */
  ghost predicate Holds(n: DependencyRoot, node: FuseNode)
    decreases node
  {
    && n.link == node.link && n.target == TargetText(node.target)
    && n.children.Keys == node.children.Keys
    && forall k :: k in node.children ==> Holds(n.children[k], node.children[k])
  }

  /** Initialisation changes numbers only, so the view decodes the node in every state. */
  lemma {:induction false} HoldsView(n: DependencyRoot, node: FuseNode)
    requires n.Valid() && Holds(n, node)
    ensures Decodes(n.View(), node)
    decreases node
  {
    n.Shape();
    forall k | k in node.children ensures Decodes(n.View().children[k], node.children[k]) {
      HoldsView(n.children[k], node.children[k]);
      assert n.View().children[k] == n.children[k].View();
    }
  }

  /** A mount root also has the injected entry, which hides a child of that name. */
  ghost predicate DecodesMount(top: Dep, node: FuseNode) {
    && top.link == node.link && top.target == TargetText(node.target)
    && top.children.Keys == node.children.Keys + {UNMOUNT_FILE}
    && forall k :: k in node.children && k != UNMOUNT_FILE ==> Decodes(top.children[k], node.children[k])
  }

  /** The copy that FuseData.Init initialises for a decoded mount. */
  lemma {:induction false} CopyDecodes(mount: MountRoot, copy: DependencyRoot, before: map<string, DependencyRoot>,
                                       node: FuseNode)
    requires mount.IsCopy(copy, before) && mount.link == node.link && mount.target == TargetText(node.target)
    requires before.Keys == node.children.Keys && forall k :: k in before ==> Holds(before[k], node.children[k])
    ensures DecodesMount(copy.View(), node)
  {
    copy.Shape();
    var top := copy.View();
    assert copy.Request() == Req(mount.link, mount.target);
    forall k | k in node.children && k != UNMOUNT_FILE ensures Decodes(top.children[k], node.children[k]) {
      assert copy.children[k] == before[k];
      assert top.children[k] == copy.children[k].View();
      HoldsView(copy.children[k], node.children[k]);
    }
  }

  lemma {:induction false} DepAtDecodes(dep: Dep, node: FuseNode, segs: seq<string>)
    requires Decodes(dep, node)
    ensures U.DepAt(dep, segs).Some? <==> Follow(node, segs).Some?
    ensures Follow(node, segs).Some? ==> Decodes(U.DepAt(dep, segs).value, Follow(node, segs).value)
    decreases |segs|
  {
    if segs != [] && segs[0] in node.children {
      DepAtDecodes(dep.children[segs[0]], node.children[segs[0]], segs[1..]);
    }
  }

  lemma {:induction false} DepAtMount(top: Dep, node: FuseNode, segs: seq<string>)
    requires DecodesMount(top, node) && segs != [] && segs[0] != UNMOUNT_FILE
    ensures U.DepAt(top, segs).Some? <==> Follow(node, segs).Some?
    ensures Follow(node, segs).Some? ==> Decodes(U.DepAt(top, segs).value, Follow(node, segs).value)
  {
    hide Decodes;
    if segs[0] in node.children {
      DepAtDecodes(top.children[segs[0]], node.children[segs[0]], segs[1..]);
    }
  }

  // ----- Walks in the mounted system -----

  /** Every dependency properly above the path, below the mount root, can be opened. */
  predicate WayOpen(top: Dep, names: seq<string>) {
    forall i :: 1 <= i < |names| && U.DepAt(top, names[..i]).Some? ==> U.Opens(U.DepAt(top, names[..i]).value)
  }

  /** A prefix of a path that leads to a dependency leads to dependencies all along. */
  lemma {:induction false} DepAtPrefix(dep: Dep, segs: seq<string>, i: nat)
    requires i <= |segs| && U.DepAt(dep, segs).Some?
    ensures U.DepAt(dep, segs[..i]).Some?
    decreases |segs|
  {
    if i > 0 {
      assert segs[..i][0] == segs[0] && segs[..i][1..] == segs[1..][..i - 1];
      DepAtPrefix(dep.children[segs[0]], segs[1..], i - 1);
    }
  }

  lemma {:induction false} DepAtLast(dep: Dep, segs: seq<string>, s: string)
    requires U.DepAt(dep, segs).Some?
    ensures U.DepAt(dep, segs + [s]).Some? <==> s in U.DepAt(dep, segs).value.children
    decreases |segs|
  {
    if segs == [] {
      assert segs + [s] == [s] && [s][1..] == [];
    } else {
      assert (segs + [s])[0] == segs[0] && (segs + [s])[1..] == segs[1..] + [s];
      DepAtLast(dep.children[segs[0]], segs[1..], s);
    }
  }

  /** A walk over an open way follows the tree to the end of the way, and further only into d. */
  lemma {:induction false} WayIsFollowed(top: Dep, names: seq<string>, rest: seq<string>)
    requires names != [] && U.DepAt(top, names).Some? && WayOpen(top, names)
    requires var d := U.DepAt(top, names).value; rest == [] || !U.Opens(d) || rest[0] !in d.children
    ensures U.DepPart(top, names + rest) == |names| && (names + rest)[..|names|] == names
  {
    hide U.Opens, U.DepPart;
    var path, k := names + rest, |names|;
    assert path[..k] == names;
    forall i | 1 <= i < k ensures U.DepAt(top, path[..i]).Some? && U.Opens(U.DepAt(top, path[..i]).value) {
      assert path[..i] == names[..i];
      DepAtPrefix(top, names, i);
    }
    U.DepPartIsLongest(top, path, k);
    U.DepPartIsLongest(top, path, k + 1);
    if rest != [] {
      DepAtLast(top, names, rest[0]);
      assert path[..k + 1] == names + [rest[0]];
    }
  }

  /** The names of a location below its mount root. */
  function NamesOf(location: Path, skip: Path): seq<string>
    requires skip <= location && Spot(location, skip).segs != []
  {
    Spot(location, skip).segs[1..]
  }

  /** The mount a location belongs to. */
  function KeyOf(location: Path, skip: Path): Path
    requires skip <= location && Spot(location, skip).segs != []
  {
    MountKey(Spot(location, skip).root, Spot(location, skip).segs[0])
  }

  ghost predicate ServedAt(m: LocatorMap, skip: Path, bins: BinMap, location: Path)
    requires AllInside(m, skip)
  {
    && skip <= location && Spot(location, skip).segs != []
    && !SoftRoot(m, skip, Spot(location, skip).root)
    && !BinPath(bins, Spot(location, skip).root, NamesOf(location, skip))
    && NamesOf(location, skip) != [] && NamesOf(location, skip)[0] != UNMOUNT_FILE
  }

  /** Location k of package i is served: its root has mounts, and no bin link or injected entry takes it. */
  ghost predicate IsServed(m: LocatorMap, skip: Path, bins: BinMap, i: nat, k: nat)
    requires AllInside(m, skip)
  {
    i < |m| && k < |m[i].1.locations| && ServedAt(m, skip, bins, m[i].1.locations[k])
  }

  /** The tree decodes the mount of this location. */
  ghost predicate IsMountOf(top: Dep, m: LocatorMap, skip: Path, bins: BinMap, location: Path)
    requires AllInside(m, skip) && CleanPath(skip) && skip <= location && Spot(location, skip).segs != []
  {
    var mounts, key := Compile(m, skip, bins), KeyOf(location, skip);
    key in mounts ==> DecodesMount(top, mounts[key])
  }

  lemma {:induction false} DecodedHere(dep: Dep, node: FuseNode)
    requires Decodes(dep, node)
    ensures dep.link == node.link && dep.target == TargetText(node.target)
  {
  }

  lemma {:induction false} DependencyOfLocation(m: LocatorMap, skip: Path, bins: BinMap, i: nat, k: nat, top: Dep)
    requires AllInside(m, skip) && CleanPath(skip) && IsServed(m, skip, bins, i, k)
    requires IsMountOf(top, m, skip, bins, m[i].1.locations[k])
    ensures var a, names := Spot(m[i].1.locations[k], skip), NamesOf(m[i].1.locations[k], skip);
            && (exists j: nat :: LastPutter(m, skip, a, j))
            && U.DepAt(top, names).Some?
            && forall j: nat :: LastPutter(m, skip, a, j) ==>
                 U.DepAt(top, names).value.link == m[j].1.link
                 && U.DepAt(top, names).value.target == JoinSlash(m[j].1.target)
  {
    hide Compile, ParseLocation, Real, MountKey, BinPath, SoftRoot, DecodesMount, LastPutter, JoinSlash, Decodes,
         AllInside;
    var location := m[i].1.locations[k];
    var names, key := NamesOf(location, skip), KeyOf(location, skip);
    MeaningPreserved(m, skip, bins, i, k);
    var node := Compile(m, skip, bins)[key];
    DepAtMount(top, node, names);
    DecodedHere(U.DepAt(top, names).value, Follow(node, names).value);
  }

  /** What a walk into the package at these names does when its target names this archive. */
  ghost predicate AnswersAsArchive(top: Dep, names: seq<string>, rest: seq<string>, seen: seq<U.Zips>, disk: Disk,
                                   archive: string, inner: string)
    requires |seen| == |names + rest| && U.DepAt(top, names).Some?
  {
    var d := U.DepAt(top, names).value;
    var root := ZipArgs(archive, Clean(inner), Wrap(d.inoGen.ino + 1));
    var out := U.Walk(U.DepNode(top), names + rest, seen);
    if rest == [] then out == U.Reached(U.ZipTop(d, root))
    else rest[0] !in d.children ==> U.AsListed(out, rest, seen[|names|..], disk, root)
  }

  lemma {:induction false} WalkToDependency(top: Dep, names: seq<string>, seen: seq<U.Zips>, disk: Disk)
    requires names != [] && U.DepAt(top, names).Some? && WayOpen(top, names)
    requires |seen| == |names| && U.AllFresh(seen, disk)
    ensures U.Walk(U.DepNode(top), names, seen)
            == match U.DepNodeFor(U.DepAt(top, names).value) case None => U.Crash case Some(node) => U.Reached(node)
  {
    hide U.DepNodeFor, U.Walk, U.DepPart, U.AllFresh;
    WayIsFollowed(top, names, []);
    assert names + [] == names && names[..|names|] == names;
    U.UnionWalk(top, names, seen, disk);
  }

  lemma {:induction false} WalkToArchive(top: Dep, names: seq<string>, rest: seq<string>, seen: seq<U.Zips>, disk: Disk,
                                         archive: string, inner: string)
    requires names != [] && U.DepAt(top, names).Some? && WayOpen(top, names)
    requires |seen| == |names + rest| && U.AllFresh(seen, disk)
    requires var d := U.DepAt(top, names).value; d.link.HARD? && U.Names(d.target, archive, inner)
    ensures AnswersAsArchive(top, names, rest, seen, disk, archive, inner)
  {
    hide U.DepNodeFor, U.Walk, U.DepPart, U.AllFresh, U.AsListed, U.Names, Clean, Wrap;
    var d := U.DepAt(top, names).value;
    var root := ZipArgs(archive, Clean(inner), Wrap(d.inoGen.ino + 1));
    U.NodeOfTarget(d);
    assert U.DepNodeFor(d) == Some(U.ZipTop(d, root));
    if rest == [] || rest[0] !in d.children {
      WayIsFollowed(top, names, rest);
      U.UnionWalk(top, names + rest, seen, disk);
      assert (names + rest)[|names|..] == rest;
      if rest != [] { U.ArchiveAnswers(d, root, rest, seen[|names|..], disk); }
    }
  }

  lemma {:induction false} ServedNames(m: LocatorMap, skip: Path, bins: BinMap, i: nat, k: nat)
    requires AllInside(m, skip) && IsServed(m, skip, bins, i, k)
    ensures NamesOf(m[i].1.locations[k], skip) != []
  {
  }

  /** The dependency at these names answers as its own link type and target say. */
  lemma {:induction false} DependencyAnswers(top: Dep, names: seq<string>, rest: seq<string>, seen: seq<U.Zips>,
                                             disk: Disk)
    requires names != [] && U.DepAt(top, names).Some? && WayOpen(top, names)
    requires |seen| == |names + rest| && U.AllFresh(seen, disk)
    ensures var d := U.DepAt(top, names).value;
            && (rest == [] ==> U.Walk(U.DepNode(top), names + rest, seen)
                               == match U.DepNodeFor(d) case None => U.Crash case Some(node) => U.Reached(node))
            && forall archive, inner :: d.link.HARD? && U.Names(d.target, archive, inner) ==>
                 AnswersAsArchive(top, names, rest, seen, disk, archive, inner)
  {
    hide AnswersAsArchive, WayOpen, U.AllFresh, U.Walk, U.DepNodeFor, U.DepAt, U.Names;
    var d := U.DepAt(top, names).value;
    forall archive, inner | d.link.HARD? && U.Names(d.target, archive, inner)
      ensures AnswersAsArchive(top, names, rest, seen, disk, archive, inner)
    {
      WalkToArchive(top, names, rest, seen, disk, archive, inner);
    }
    if rest == [] {
      assert names + rest == names;
      WalkToDependency(top, names, seen, disk);
    }
  }

  /**
   The install plan and the mounted system agree. For every location of the locator map that is
   served, over an open way, a walk to the location in its mount reaches a dependency with the link
   type and target of the last package of the map that has the location. If that target names an
   archive, the walk ends at the top of this archive, opened at the path inside it that the target
   names; and a path below it that no dependency child starts is found in the archive exactly if the
   archive lists it, below directories, and every call for it opens the archive, and it ends at the
   archive's last entry for it.
   */
  lemma {:induction false} LocationIsServed(m: LocatorMap, skip: Path, bins: BinMap, i: nat, k: nat, top: Dep,
                                            rest: seq<string>, seen: seq<U.Zips>, disk: Disk)
    requires AllInside(m, skip) && CleanPath(skip) && IsServed(m, skip, bins, i, k)
    requires IsMountOf(top, m, skip, bins, m[i].1.locations[k])
    requires WayOpen(top, NamesOf(m[i].1.locations[k], skip))
    requires |seen| == |NamesOf(m[i].1.locations[k], skip) + rest| && U.AllFresh(seen, disk)
    ensures var a, names := Spot(m[i].1.locations[k], skip), NamesOf(m[i].1.locations[k], skip);
            var out := U.Walk(U.DepNode(top), names + rest, seen);
            && (exists j: nat :: LastPutter(m, skip, a, j)) && U.DepAt(top, names).Some?
            && var d := U.DepAt(top, names).value;
            && (rest == [] ==> out == match U.DepNodeFor(d) case None => U.Crash case Some(node) => U.Reached(node))
            && forall j: nat :: LastPutter(m, skip, a, j) ==>
                 && d.link == m[j].1.link && d.target == JoinSlash(m[j].1.target)
                 && forall archive, inner :: m[j].1.link.HARD? && U.Names(JoinSlash(m[j].1.target), archive, inner) ==>
                      AnswersAsArchive(top, names, rest, seen, disk, archive, inner)
  {
    DependencyOfLocation(m, skip, bins, i, k, top);
    ServedNames(m, skip, bins, i, k);
    var a, names := Spot(m[i].1.locations[k], skip), NamesOf(m[i].1.locations[k], skip);
    hide Compile, ParseLocation, Real, IsMountOf, LastPutter, AllInside, JoinSlash, AnswersAsArchive, WayOpen, IsServed,
         U.AllFresh, U.Walk, U.DepNodeFor, U.DepAt, U.Names, NamesOf;
    DependencyAnswers(top, names, rest, seen, disk);
  }
}
