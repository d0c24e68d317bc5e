/**
 The mounted file system: dependency nodes, archives with dependency children laid over their top
 directory, and what a walk or a listing finds there.

 Every request asks the cache anew, and each of these calls may fail to open the archive. `Zips`
 holds the indices that the calls of one request get; an absent key is an archive that could not be
 opened. By ZipCache.AnswerIsFresh an index that is returned is always the fresh one.
 */
module UnionFs {
  import opened DependencyTree
  import opened DirStream
  import opened FuseTypes
  import opened Inodes
  import opened NestedIndex
  import opened Paths
  import opened Wrappers
  import opened ZipDir
  import opened ZipGetter
  import opened ZipIndex
  import ZipCache

  type Zips = map<ZipArgs, Index>

  function EntriesOf(disk: Disk, path: string): seq<Entry> {
    if path in disk then disk[path] else []
  }

  ghost function FreshIndex(disk: Disk, a: ZipArgs): Index {
    IndexOf(EntriesOf(disk, a.zipPath), a)
  }

  ghost predicate FreshAnswers(zips: Zips, disk: Disk) {
    forall a :: a in zips ==> zips[a] == FreshIndex(disk, a)
  }

  /** One table for each request of a walk. */
  ghost predicate AllFresh(seen: seq<Zips>, disk: Disk) {
    forall i :: 0 <= i < |seen| ==> FreshAnswers(seen[i], disk)
  }

  /** The table of a request that makes one call. */
  function OneAnswer(root: ZipArgs, zip: Option<Index>): Zips {
    match zip
    case None => map[]
    case Some(index) => map[root := index]
  }

  // ----- Targets -----

  /** strings.Index: the first position of pat in s. */
  function Find(s: string, pat: string): (i: Option<nat>)
    ensures i.Some? ==> i.value + |pat| <= |s| && s[i.value..i.value + |pat|] == pat
  {
    if HasPrefix(s, pat) then Some(0)
    else if s == "" then None
    else
      match Find(s[1..], pat)
      case None => None
      case Some(k) => Some(k + 1)
  }

  /** pat stands at position i of s. */
  predicate Occurs(s: string, pat: string, i: nat) {
    i + |pat| <= |s| && s[i..i + |pat|] == pat
  }

  /** i is the first position of pat, or there is none. */
  ghost predicate IsFirst(s: string, pat: string, found: Option<nat>) {
    match found
    case None => forall i: nat :: !Occurs(s, pat, i)
    case Some(k) => Occurs(s, pat, k) && forall i: nat :: i < k ==> !Occurs(s, pat, i)
  }

  lemma {:induction false} OnlyAtStart(s: string, pat: string)
    requires s == "" && !HasPrefix(s, pat)
    ensures IsFirst(s, pat, None)
  {
  }

  lemma {:induction false} OccursLater(s: string, pat: string, i: nat)
    requires s != "" && i >= 1
    ensures Occurs(s, pat, i) <==> Occurs(s[1..], pat, i - 1)
  {
    var t := s[1..];
    if i + |pat| <= |s| {
      var here, later := s[i..i + |pat|], t[i - 1..i - 1 + |pat|];
      assert forall k :: 0 <= k < |pat| ==> here[k] == later[k];
      assert here == later;
    }
  }

  lemma {:induction false} FirstLater(s: string, pat: string, found: Option<nat>)
    requires s != "" && !HasPrefix(s, pat) && IsFirst(s[1..], pat, found)
    ensures IsFirst(s, pat, match found case None => None case Some(k) => Some(k + 1))
  {
    assert !Occurs(s, pat, 0);
    hide Occurs;
    forall i: nat | i >= 1 ensures Occurs(s, pat, i) <==> Occurs(s[1..], pat, i - 1) {
      OccursLater(s, pat, i);
    }
  }

  lemma {:induction false} FirstAtStart(s: string, pat: string)
    requires HasPrefix(s, pat)
    ensures IsFirst(s, pat, Some(0))
  {
  }

  lemma {:induction false} FindFirst(s: string, pat: string)
    ensures IsFirst(s, pat, Find(s, pat))
  {
    hide IsFirst;
    if HasPrefix(s, pat) {
      FirstAtStart(s, pat);
    } else if s == "" {
      OnlyAtStart(s, pat);
    } else {
      FindFirst(s[1..], pat);
      FirstLater(s, pat, Find(s[1..], pat));
    }
  }

  /** Find gives the first occurrence, and None exactly when there is none. */
  lemma {:induction false} FindIsFirst(s: string, pat: string)
    ensures Find(s, pat).None? <==> forall i: nat :: !Occurs(s, pat, i)
    ensures Find(s, pat).Some? ==>
              Occurs(s, pat, Find(s, pat).value) && forall i: nat :: i < Find(s, pat).value ==> !Occurs(s, pat, i)
  {
    FindFirst(s, pat);
  }

  lemma {:induction false} FindAt(s: string, pat: string, i: nat)
    requires Occurs(s, pat, i) && forall k: nat :: k < i ==> !Occurs(s, pat, k)
    ensures Find(s, pat) == Some(i)
  {
    FindIsFirst(s, pat);
    hide Find, Occurs;
    var f := Find(s, pat);
    assert f.Some?;
    assert !(f.value < i) && !(i < f.value);
  }

  const ZIP := ".zip"
  const ZIP_SLASH := ".zip/"

  /** The arguments an archive target is opened with: path, cleaned strip prefix, first number. */
  function ZipArgsFor(target: string, ino: nat): Option<ZipArgs> {
    match Find(target, ZIP_SLASH)
    case None => None
    case Some(i) => Some(ZipArgs(target[..i] + ZIP, Clean(target[i + |ZIP_SLASH|..]), Wrap(ino + 1)))
  }

  /** The target is in this archive, under this path: its first ".zip/" ends the archive's name. */
  predicate Names(target: string, archive: string, inner: string) {
    && |archive| >= 4 && archive[|archive| - 4..] == ".zip" && target == archive + "/" + inner
    && forall k: nat :: k < |archive| - 4 ==> !Occurs(target, ".zip/", k)
  }

  lemma {:induction false} NamesFirst(target: string, archive: string, inner: string)
    requires Names(target, archive, inner)
    ensures Occurs(target, ".zip/", |archive| - 4) && Occurs(target, ".zip", |archive| - 4) && target != ""
    ensures target[..|archive| - 4] + ".zip" == archive && target[|archive| + 1..] == inner
  {
    assert archive == archive[..|archive| - 4] + ".zip";
    assert target == archive[..|archive| - 4] + ".zip/" + inner;
  }

  lemma {:induction false} FirstNames(target: string, i: nat)
    requires Occurs(target, ".zip/", i) && forall k: nat :: k < i ==> !Occurs(target, ".zip/", k)
    ensures Names(target, target[..i] + ".zip", target[i + 5..])
  {
    assert target == target[..i] + target[i..i + 5] + target[i + 5..];
    assert ".zip/" == ".zip" + "/";
  }

  /** Which archive a target names, which prefix, and where its numbers start; none without ".zip/" in it. */
  lemma {:induction false} ArchiveOfTarget(target: string, ino: nat)
    ensures ZipArgsFor(target, ino).None? <==> forall i: nat :: !Occurs(target, ".zip/", i)
    ensures forall archive, inner :: Names(target, archive, inner) ==>
              ZipArgsFor(target, ino) == Some(ZipArgs(archive, Clean(inner), Wrap(ino + 1)))
    ensures ZipArgsFor(target, ino).Some? ==> exists archive, inner :: Names(target, archive, inner)
  {
    FindIsFirst(target, ".zip/");
    hide Find, Clean, Occurs;
    forall archive, inner | Names(target, archive, inner)
      ensures ZipArgsFor(target, ino) == Some(ZipArgs(archive, Clean(inner), Wrap(ino + 1)))
    {
      NamesFirst(target, archive, inner);
      FindAt(target, ".zip/", |archive| - 4);
    }
    if Find(target, ".zip/").Some? { FirstNames(target, Find(target, ".zip/").value); }
  }

  // ----- Nodes -----

  /** The kinds of node the file system serves. */
  datatype Node =
    | DepNode(dep: Dep)
    | ZipTop(dep: Dep, root: ZipArgs)
    | InArchive(root: ZipArgs, zipNode: ZipNode)
    | Link(target: string)
    | Loopback(dep: Dep, path: string)

  /**
   What a name resolves to. Fatal ends the process; Foreign is left to the loopback directory.
   gen is None when the number comes from the archive directory's counter.
   */
  datatype Child = NoEnt | Fatal | Foreign | Found(node: Node, mode: Mode, ino: nat, gen: Option<nat>)

  function DepMode(dep: Dep): Mode {
    if dep.link.SOFT? then IFLNK else IFDIR
  }

  /** The node that serves a dependency, or None where GetChild ends the process. */
  function DepNodeFor(dep: Dep): Option<Node> {
    if dep.link.SOFT? then
      if dep.target == "" then None else Some(Link(dep.target))
    else if dep.target == "" then Some(DepNode(dep))
    else if Find(dep.target, ZIP).Some? then
      match ZipArgsFor(dep.target, dep.inoGen.ino)
      case None => None
      case Some(root) => Some(ZipTop(dep, root))
    else Some(Loopback(dep, dep.target))
  }

  function GetChild(dep: Dep, name: string): Child {
    if name !in dep.children then NoEnt
    else
      var ch := dep.children[name];
      match DepNodeFor(ch)
      case None => Fatal
      case Some(node) => Found(node, DepMode(ch), ch.inoGen.ino, Some(ch.inoGen.gen))
  }

  /** Which node serves a dependency, read off its link type and the text of its target. */
  lemma {:induction false} NodeOfTarget(dep: Dep)
    ensures dep.link.SOFT? && dep.target == "" ==> DepNodeFor(dep) == None
    ensures dep.link.SOFT? && dep.target != "" ==> DepNodeFor(dep) == Some(Link(dep.target))
    ensures dep.link.HARD? && dep.target == "" ==> DepNodeFor(dep) == Some(DepNode(dep))
    ensures dep.link.HARD? ==>
              forall archive, inner :: Names(dep.target, archive, inner) ==>
                DepNodeFor(dep) == Some(ZipTop(dep, ZipArgs(archive, Clean(inner), Wrap(dep.inoGen.ino + 1))))
    ensures dep.link.HARD? && dep.target != "" && (forall i: nat :: !Occurs(dep.target, ".zip", i)) ==>
              DepNodeFor(dep) == Some(Loopback(dep, dep.target))
    ensures dep.link.HARD? && (exists i: nat :: Occurs(dep.target, ".zip", i))
            && (forall i: nat :: !Occurs(dep.target, ".zip/", i)) ==>
              DepNodeFor(dep) == None
  {
    hide Find, Clean, ZipArgsFor, Wrap, Names, Occurs;
    FindIsFirst(dep.target, ".zip");
    ArchiveOfTarget(dep.target, dep.inoGen.ino);
    forall archive, inner | dep.link.HARD? && Names(dep.target, archive, inner)
      ensures DepNodeFor(dep) == Some(ZipTop(dep, ZipArgs(archive, Clean(inner), Wrap(dep.inoGen.ino + 1))))
    {
      NamesFirst(dep.target, archive, inner);
    }
  }

  function DepEntry(name: string, dep: Dep): DirEntry {
    DirEntry(DepMode(dep), name, dep.inoGen.ino)
  }

  /** The attributes GetChild gives: a symbolic link for SOFT, a directory for HARD, under the child's own identity. */
  lemma {:induction false} ChildIs(dep: Dep, name: string)
    ensures GetChild(dep, name).NoEnt? <==> name !in dep.children
    ensures name in dep.children ==>
              var ch, found := dep.children[name], GetChild(dep, name);
              && (found.Fatal? <==> DepNodeFor(ch).None?)
              && (found.Found? ==>
                    && Some(found.node) == DepNodeFor(ch)
                    && found.mode == (match ch.link case SOFT => IFLNK case HARD => IFDIR)
                    && found.ino == ch.inoGen.ino && found.gen == Some(ch.inoGen.gen))
              && DepEntry(name, ch).mode == (match ch.link case SOFT => IFLNK case HARD => IFDIR)
              && DepEntry(name, ch).ino == ch.inoGen.ino && DepEntry(name, ch).name == name
  {
    hide DepNodeFor;
  }

  function LookupArchive(zips: Zips, root: ZipArgs, path: string, name: string): Child {
    if root !in zips then NoEnt
    else
      match LookupIn(zips[root], path, name)
      case None => NoEnt
      case Some(listed) => Found(InArchive(root, NodeFor(listed, path, name)), ModeOf(listed), listed.ino, None)
  }

  function Lookup(node: Node, name: string, zips: Zips): Child {
    match node
    case DepNode(dep) => GetChild(dep, name)
    case ZipTop(dep, root) =>
      var own := GetChild(dep, name);
      if own.NoEnt? then LookupArchive(zips, root, "", name) else own
    case InArchive(root, DirNode(path)) => LookupArchive(zips, root, path, name)
    case InArchive(_, FileNode(_)) => NoEnt
    case Link(_) => NoEnt
    case Loopback(dep, _) =>
      var own := GetChild(dep, name);
      if own.NoEnt? then Foreign else own
  }

  // ----- Walks -----

  datatype Outcome = Reached(node: Node) | Absent | Crash | Elsewhere(path: string, rest: seq<string>)

  /** Lookups one component at a time; the i-th one gets the answers seen[i]. */
  function Walk(node: Node, segs: seq<string>, seen: seq<Zips>): Outcome
    requires |seen| == |segs|
    decreases |segs|
  {
    if segs == [] then Reached(node)
    else
      match Lookup(node, segs[0], seen[0])
      case NoEnt => Absent
      case Fatal => Crash
      case Foreign => if node.Loopback? then Elsewhere(node.path, segs) else Absent
      case Found(next, _, _, _) => Walk(next, segs[1..], seen[1..])
  }

  /** The dependency found by following names in the dependency tree alone. */
  function DepAt(dep: Dep, segs: seq<string>): Option<Dep>
    decreases |segs|
  {
    if segs == [] then Some(dep)
    else if segs[0] in dep.children then DepAt(dep.children[segs[0]], segs[1..])
    else None
  }

  /** Names may be looked up below this dependency. */
  predicate Opens(dep: Dep) {
    dep.link.HARD? && DepNodeFor(dep).Some?
  }

  /** How many names of a path are followed in the dependency tree. */
  function DepPart(dep: Dep, segs: seq<string>): (k: nat)
    ensures k <= |segs|
    decreases |segs|
  {
    if segs == [] || segs[0] !in dep.children then 0
    else
      var child := dep.children[segs[0]];
      1 + if Opens(child) then DepPart(child, segs[1..]) else 0
  }

  /** The first k names lead to a dependency, through others that can be opened. */
  predicate Followed(dep: Dep, segs: seq<string>, k: nat) {
    && k <= |segs| && DepAt(dep, segs[..k]).Some?
    && forall i :: 1 <= i < k ==> DepAt(dep, segs[..i]).Some? && Opens(DepAt(dep, segs[..i]).value)
  }

  lemma {:induction false} DepAtStep(dep: Dep, segs: seq<string>, i: nat)
    requires 1 <= i <= |segs|
    ensures DepAt(dep, segs[..i])
            == if segs[0] in dep.children then DepAt(dep.children[segs[0]], segs[1..][..i - 1]) else None
  {
    assert segs[..i][0] == segs[0] && segs[..i][1..] == segs[1..][..i - 1];
  }

  lemma {:induction false} FollowedStep(dep: Dep, segs: seq<string>, k: nat)
    requires 2 <= k <= |segs| && segs[0] in dep.children
    ensures Followed(dep, segs, k)
        <==> Opens(dep.children[segs[0]]) && Followed(dep.children[segs[0]], segs[1..], k - 1)
  {
    var child, rest := dep.children[segs[0]], segs[1..];
    assert DepAt(child, rest[..0]) == Some(child);
    hide Opens, DepAt;
    forall i | 1 <= i <= k ensures DepAt(dep, segs[..i]) == DepAt(child, rest[..i - 1]) {
      DepAtStep(dep, segs, i);
    }
    if Followed(dep, segs, k) {
      assert Opens(DepAt(dep, segs[..1]).value);
      forall i | 1 <= i < k - 1 ensures DepAt(child, rest[..i]).Some? && Opens(DepAt(child, rest[..i]).value) {
        assert DepAt(dep, segs[..i + 1]) == DepAt(child, rest[..i]);
      }
    }
  }

  /** DepPart is the longest part of the path that the dependency tree follows. */
  lemma {:induction false} DepPartIsLongest(dep: Dep, segs: seq<string>, k: nat)
    ensures Followed(dep, segs, k) <==> k <= DepPart(dep, segs)
    decreases |segs|
  {
    assert segs[..0] == [];
    if 1 <= k <= |segs| {
      DepAtStep(dep, segs, 1);
      if segs[0] in dep.children {
        var child := dep.children[segs[0]];
        assert DepAt(child, segs[1..][..0]) == Some(child);
        if k > 1 {
          FollowedStep(dep, segs, k);
          DepPartIsLongest(child, segs[1..], k - 1);
        }
      } else if Followed(dep, segs, k) {
        DepAtStep(dep, segs, k);
      }
    }
  }

  /** Every call of a walk through an archive opens it. */
  predicate OpenedThroughout(root: ZipArgs, seen: seq<Zips>) {
    forall i :: 0 <= i < |seen| ==> root in seen[i]
  }

  ghost function WalkArchive(root: ZipArgs, path: string, rest: seq<string>, seen: seq<Zips>, disk: Disk): Outcome {
    if OpenedThroughout(root, seen) then
      match WalkIndex(FreshIndex(disk, root), path, rest)
      case None => Absent
      case Some(zipNode) => Reached(InArchive(root, zipNode))
    else Absent
  }

  /** What one node answers for a path that its own dependency children do not start. */
  ghost function Resolve(node: Node, rest: seq<string>, seen: seq<Zips>, disk: Disk): Outcome {
    if rest == [] then Reached(node)
    else
      match node
      case ZipTop(_, root) => WalkArchive(root, "", rest, seen, disk)
      case Loopback(_, path) => Elsewhere(path, rest)
      case _ => Absent
  }

  /** Once inside an archive a walk stays there and reads only its index. */
  lemma {:induction false} ArchiveWalk(root: ZipArgs, path: string, segs: seq<string>, seen: seq<Zips>, disk: Disk)
    requires |seen| == |segs| && AllFresh(seen, disk)
    ensures Walk(InArchive(root, DirNode(path)), segs, seen) == WalkArchive(root, path, segs, seen, disk)
    decreases |segs|
  {
    hide FreshIndex, Join;
    if segs != [] {
      assert OpenedThroughout(root, seen) <==> root in seen[0] && OpenedThroughout(root, seen[1..]);
      if root in seen[0] {
        var index := FreshIndex(disk, root);
        match LookupIn(index, path, segs[0]) {
          case None =>
          case Some(listed) =>
            match NodeFor(listed, path, segs[0]) {
              case DirNode(below) => ArchiveWalk(root, below, segs[1..], seen[1..], disk);
              case FileNode(_) => assert |segs| > 1 ==> segs[1..] != [];
            }
        }
      }
    }
  }

  /** The node serving what the first k names of a walk from a mount root lead to. */
  function ServedBy(root: Dep, dep: Dep, k: nat): Option<Node> {
    if k == 0 then Some(DepNode(root)) else DepNodeFor(dep)
  }

  /** A node shows the children of a dependency before anything else it has. */
  predicate Shows(node: Node, dep: Dep) {
    (node.DepNode? || node.ZipTop? || node.Loopback?) && node.dep == dep
  }

  /** A walk from the top of an archive, where no dependency child takes the first name. */
  lemma {:induction false} TopWalk(node: Node, segs: seq<string>, seen: seq<Zips>, disk: Disk)
    requires node.ZipTop? && segs != [] && segs[0] !in node.dep.children
    requires |seen| == |segs| && AllFresh(seen, disk)
    ensures Walk(node, segs, seen) == WalkArchive(node.root, "", segs, seen, disk)
  {
    hide Join, WalkArchive;
    ArchiveWalk(node.root, "", segs, seen, disk);
    assert Lookup(node, segs[0], seen[0]) == Lookup(InArchive(node.root, DirNode("")), segs[0], seen[0]);
  }

  /** The node answers by itself where the tree is not followed at all. */
  lemma {:induction false} NoSteps(dep: Dep, node: Node, segs: seq<string>, seen: seq<Zips>, disk: Disk)
    requires Shows(node, dep) && |seen| == |segs| && AllFresh(seen, disk) && DepPart(dep, segs) == 0
    ensures Walk(node, segs, seen) == Resolve(node, segs, seen, disk)
  {
    hide DepNodeFor, Join, WalkIndex, FreshIndex, WalkArchive, LookupArchive, AllFresh;
    if segs != [] && node.ZipTop? { TopWalk(node, segs, seen, disk); }
  }

  /** A dependency that cannot be opened is a link, and ends a walk. */
  lemma {:induction false} NothingBelow(dep: Dep, segs: seq<string>, seen: seq<Zips>, disk: Disk)
    requires |seen| == |segs| && !Opens(dep) && DepNodeFor(dep).Some?
    ensures Walk(DepNodeFor(dep).value, segs, seen) == Resolve(DepNodeFor(dep).value, segs, seen, disk)
  {
  }

  lemma {:induction false} IntoChild(dep: Dep, node: Node, segs: seq<string>, seen: seq<Zips>)
    requires Shows(node, dep) && |seen| == |segs| && segs != [] && segs[0] in dep.children
    ensures Walk(node, segs, seen) == match DepNodeFor(dep.children[segs[0]])
                                      case None => Crash
                                      case Some(child) => Walk(child, segs[1..], seen[1..])
  {
    hide DepNodeFor;
  }

  lemma {:induction false} StepsFrom(dep: Dep, node: Node, segs: seq<string>, seen: seq<Zips>, disk: Disk)
    requires Shows(node, dep) && |seen| == |segs| && AllFresh(seen, disk)
    ensures var k := DepPart(dep, segs);
            DepAt(dep, segs[..k]).Some?
            && Walk(node, segs, seen) == match (if k == 0 then Some(node) else DepNodeFor(DepAt(dep, segs[..k]).value))
                                         case None => Crash
                                         case Some(n) => Resolve(n, segs[k..], seen[k..], disk)
    decreases |segs|
  {
    hide Find, ZipArgsFor, Walk, Resolve;
    var k := DepPart(dep, segs);
    if k == 0 {
      assert segs[..0] == [] && segs[0..] == segs && seen[0..] == seen;
      NoSteps(dep, node, segs, seen, disk);
    } else {
      var child, rest := dep.children[segs[0]], segs[1..];
      DepAtStep(dep, segs, k);
      assert segs[k..] == rest[k - 1..] && seen[k..] == seen[1..][k - 1..];
      assert AllFresh(seen[1..], disk);
      IntoChild(dep, node, segs, seen);
      if Opens(child) {
        StepsFrom(child, DepNodeFor(child).value, rest, seen[1..], disk);
        assert rest[..0] == [];
      } else {
        assert rest[..0] == [] && rest[0..] == rest;
        if DepNodeFor(child).Some? { NothingBelow(child, rest, seen[1..], disk); }
      }
    }
  }

  /**
   The union file system. Any walk from a mount root follows the dependency tree for the longest
   part of the path that it can, and then the node reached answers for the rest: its archive if it
   has one, provided every later call opens it. The mount root itself is always served as a plain
   dependency node.
   */
  lemma {:induction false} UnionWalk(root: Dep, segs: seq<string>, seen: seq<Zips>, disk: Disk)
    requires |seen| == |segs| && AllFresh(seen, disk)
    ensures var k := DepPart(root, segs);
            DepAt(root, segs[..k]).Some?
            && Walk(DepNode(root), segs, seen) == match ServedBy(root, DepAt(root, segs[..k]).value, k)
                                                  case None => Crash
                                                  case Some(node) => Resolve(node, segs[k..], seen[k..], disk)
  {
    StepsFrom(root, DepNode(root), segs, seen, disk);
  }

  /**
   The outcome of a walk that enters the archive a with these names left: found exactly when the
   archive lists the path, below directories, and every call for it opens the archive; then it is
   the archive's last entry for the path.
   */
  ghost predicate AsListed(out: Outcome, rest: seq<string>, seen: seq<Zips>, disk: Disk, a: ZipArgs) {
    var entries := EntriesOf(disk, a.zipPath);
    AllWellNamed(entries, a.stripPrefix) && AllPlain(rest) && rest != [] ==>
      && (out.Reached? <==>
            && OpenedThroughout(a, seen)
            && ListedFor(entries, a.stripPrefix, rest)
            && forall i :: 1 <= i < |rest| ==> DirectoryFor(entries, a.stripPrefix, rest[..i]))
      && (!out.Reached? ==> out == Absent)
      && forall j :: out.Reached? && LastFor(KeptOf(entries, a.stripPrefix), a.stripPrefix, rest, j) ==>
           out.node == InArchive(a, EntryNode(KeptOf(entries, a.stripPrefix)[j], a.zipPath, rest))
  }

  lemma {:induction false} ArchiveAnswers(d: Dep, a: ZipArgs, rest: seq<string>, seen: seq<Zips>, disk: Disk)
    requires rest != []
    ensures AsListed(Resolve(ZipTop(d, a), rest, seen, disk), rest, seen, disk, a)
  {
    var entries := EntriesOf(disk, a.zipPath);
    hide AllWellNamed, AllPlain, ListedFor, DirectoryFor, LastFor, IndexOf, KeptOf, WalkIndex, EntryNode, EntriesOf,
         OpenedThroughout;
    if AllWellNamed(entries, a.stripPrefix) && AllPlain(rest) {
      WalkMeansListed(entries, a, rest);
    }
  }

  /** The two halves together: a path that leaves the dependency tree at a package served from an archive. */
  lemma {:induction false} PathIntoArchive(root: Dep, segs: seq<string>, seen: seq<Zips>, disk: Disk, a: ZipArgs)
    requires |seen| == |segs| && AllFresh(seen, disk)
    requires var k := DepPart(root, segs);
             1 <= k < |segs| && DepAt(root, segs[..k]).Some? && DepNodeFor(DepAt(root, segs[..k]).value)
                                                              == Some(ZipTop(DepAt(root, segs[..k]).value, a))
    ensures var k := DepPart(root, segs);
            AsListed(Walk(DepNode(root), segs, seen), segs[k..], seen[k..], disk, a)
  {
    hide Walk, AsListed, DepNodeFor, DepPart, Resolve;
    var k := DepPart(root, segs);
    UnionWalk(root, segs, seen, disk);
    ArchiveAnswers(DepAt(root, segs[..k]).value, a, segs[k..], seen[k..], disk);
  }

  // ----- Listings -----

  /** What a dependency's own children show. */
  function DepShown(children: map<string, Dep>): (listing: Listing)
    ensures listing.Keys == children.Keys
  {
    map n | n in children :: DepEntry(n, children[n])
  }

  /** dependencyRoot.Readdir. */
  method ReaddirDep(dep: Dep) returns (lst: seq<DirEntry>)
    ensures ListsExactly(lst, DepShown(dep.children))
  {
    hide ListsNames;
    lst := [];
    var todo := dep.children.Keys;
    ghost var shown := DepShown(dep.children);
    ListNone(shown);
    assert dep.children.Keys - todo == {};
    while todo != {}
      invariant todo <= dep.children.Keys && ListsNames(lst, shown, dep.children.Keys - todo)
      decreases |todo|
    {
      var name :| name in todo;
      var ch := dep.children[name];
      ListOneMore(lst, shown, dep.children.Keys - todo, name);
      assert dep.children.Keys - (todo - {name}) == dep.children.Keys - todo + {name};
      lst := lst + [DirEntry(DepMode(ch), name, ch.inoGen.ino)];
      todo := todo - {name};
    }
    assert dep.children.Keys - todo == dep.children.Keys;
  }

  /** A listing of an archive's top directory followed by the dependency children. */
  ghost predicate UnionListing(out: seq<DirEntry>, dep: Dep, index: Index) {
    "" in index && exists m ::
      0 <= m <= |out| && ListsExactly(out[..m], Shown(index[""])) && ListsExactly(out[m..], DepShown(dep.children))
  }

  lemma {:induction false} TwoStreams(a: ListDirStream, b: ListDirStream)
    requires a.Valid() && b.Valid() && a.pos == 0 && b.pos == 0
    ensures Concat([a, b]) == a.entries + b.entries
  {
    assert [a, b][1..] == [b] && [b][1..] == [];
    assert a.Rest() == a.entries && b.Rest() == b.entries;
    assert Concat([b]) == b.Rest() + Concat([]) == b.entries;
  }

  /** Readdir of an archive's top directory errors. */
  predicate ListingFails(zip: Option<Index>) {
    zip.None? || "" !in zip.value
  }

  /** zipNode.Readdir, read to its end: the archive's entries, then the dependency children. */
  method ReaddirZip(dirs: ZipDirs, dep: Dep, zip: Option<Index>) returns (out: Option<seq<DirEntry>>)
    ensures out.None? <==> ListingFails(zip)
    ensures out.Some? ==> UnionListing(out.value, dep, zip.value)
  {
    hide ListsExactly;
    var list := dirs.Readdir(zip, "");
    if list.None? {
      return None;
    }
    var list2 := ReaddirDep(dep);
    var first := new ListDirStream(list.value);
    var second := new ListDirStream(list2);
    var stream := new MultiDirStream([first, second]);
    TwoStreams(first, second);
    var all := stream.Drain();
    assert all[..|list.value|] == list.value && all[|list.value|..] == list2;
    out := Some(all);
  }

  ghost predicate Mentions(lst: seq<DirEntry>, name: string) {
    exists k :: 0 <= k < |lst| && lst[k].name == name
  }

  lemma {:induction false} MentionsConcat(lst: seq<DirEntry>, more: seq<DirEntry>, name: string)
    ensures Mentions(lst + more, name) <==> Mentions(lst, name) || Mentions(more, name)
  {
    var out := lst + more;
    if k :| 0 <= k < |lst| && lst[k].name == name {
      assert out[k].name == name;
    }
    if k :| 0 <= k < |more| && more[k].name == name {
      assert out[|lst| + k].name == name;
    }
  }

  lemma {:induction false} ListedNames(lst: seq<DirEntry>, listing: Listing, name: string)
    requires ListsExactly(lst, listing)
    ensures Mentions(lst, name) <==> name in listing
    ensures name in listing ==> listing[name] in lst
  {
    if name in listing {
      var k :| 0 <= k < |lst| && lst[k].name == name;
      assert lst[k] == listing[name];
    }
  }

  /** What UnionListing holds, name by name. */
  lemma {:induction false} UnionNames(out: seq<DirEntry>, dep: Dep, index: Index, name: string)
    requires UnionListing(out, dep, index)
    ensures "" in index && (Mentions(out, name) <==> name in index[""] || name in dep.children)
    ensures name in index[""] ==> EntryFor(name, index[""][name]) in out
    ensures name in dep.children ==> DepEntry(name, dep.children[name]) in out
  {
    hide ListsExactly, Mentions, EntryFor, DepEntry;
    var shown, own := Shown(index[""]), DepShown(dep.children);
    var m :| 0 <= m <= |out| && ListsExactly(out[..m], shown) && ListsExactly(out[m..], own);
    assert out == out[..m] + out[m..];
    MentionsConcat(out[..m], out[m..], name);
    ListedNames(out[..m], shown, name);
    ListedNames(out[m..], own, name);
  }

  ghost predicate IsFresh(zip: Option<Index>, root: ZipArgs, disk: Disk) {
    zip.Some? ==> zip.value == FreshIndex(disk, root)
  }

  /**
   Lookup and Readdir on an archive with dependency children, each with the answer of a call of its
   own. They agree on a name exactly when the lookup's call opened the archive, or the name is a
   dependency child, or it was not listed. What is looked up has the kind and number of a listed
   entry of that name, the dependency's on a clash.
   */
  lemma {:induction false} ListingAgreesWithLookup(out: seq<DirEntry>, dep: Dep, root: ZipArgs, disk: Disk,
                                                   listing: Option<Index>, looking: Option<Index>, name: string)
    requires IsFresh(listing, root, disk) && IsFresh(looking, root, disk)
    requires listing.Some? && UnionListing(out, dep, listing.value)
    ensures var found := Lookup(ZipTop(dep, root), name, OneAnswer(root, looking));
            && ((Mentions(out, name) <==> !found.NoEnt?) <==>
                  looking.Some? || name in dep.children || !Mentions(out, name))
            && (found.Found? ==> DirEntry(found.mode, name, found.ino) in out)
            && (name in dep.children ==> found == GetChild(dep, name) && DepEntry(name, dep.children[name]) in out)
  {
    hide Find, ZipArgsFor, Join, UnionListing, Mentions, FreshIndex;
    UnionNames(out, dep, listing.value, name);
  }

  /**
   When Readdir fails: exactly if the archive does not open or nothing of it is kept. Then a name
   is found exactly if it is a dependency child or the lookup's own call opens the archive and
   lists it, so with an archive of which nothing is kept exactly the dependency children are found.
   */
  lemma {:induction false} FailedListing(dep: Dep, root: ZipArgs, disk: Disk, listing: Option<Index>,
                                         looking: Option<Index>, name: string)
    requires IsFresh(listing, root, disk) && IsFresh(looking, root, disk)
    ensures ListingFails(listing) <==> listing.None? || KeptOf(EntriesOf(disk, root.zipPath), root.stripPrefix) == []
    ensures var found := Lookup(ZipTop(dep, root), name, OneAnswer(root, looking));
            !found.NoEnt? <==> name in dep.children || (looking.Some? && Lists(FreshIndex(disk, root), "", name))
    ensures ListingFails(listing) && listing.Some? ==> !Lists(FreshIndex(disk, root), "", name)
  {
    hide Find, ZipArgsFor, Join, Clean, Split, Kept, KeptOf, Fold;
    var entries := EntriesOf(disk, root.zipPath);
    var ps := PlacementsOf(entries, root);
    FoldKeys(ps, "");
    assert |ps| == |KeptOf(entries, root.stripPrefix)|;
    if ps != [] {
      var parts := Parts(KeptOf(entries, root.stripPrefix)[0], root.stripPrefix);
      assert ps[0].dirs[0] == Chain(parts, 0) == "";
    }
  }

  /** A call for this archive that has returned to its thread. */
  ghost predicate HasReturned(s: ZipCache.State, t: nat, root: ZipArgs, disk: Disk, allowed: iset<ZipArgs>) {
    && ZipCache.Reachable(s, disk, allowed)
    && t < |s.threads| && s.threads[t].Finished? && s.threads[t].req == root && s.threads[t].z < |s.zips|
  }

  lemma {:induction false} ReturnedIsFresh(s: ZipCache.State, t: nat, root: ZipArgs, disk: Disk, allowed: iset<ZipArgs>)
    requires HasReturned(s, t, root, disk, allowed) && ZipCache.OneUsePerPath(allowed)
    ensures IsFresh(ZipCache.Answer(s, t), root, disk)
  {
    hide IndexOf, ZipCache.Reachable, ZipCache.OneUsePerPath;
    ZipCache.AnswerIsFresh(s, t, disk, allowed);
  }

  /**
   Agreement of the file system as it runs: Readdir and Lookup are answered by any two calls, in any
   two reachable states of the cache, with any evictions, expiries and failed opens before, between
   and after them.
   */
  lemma {:induction false} CallsAgree(s: ZipCache.State, t: nat, s': ZipCache.State, u: nat, disk: Disk,
                                      allowed: iset<ZipArgs>, dep: Dep, root: ZipArgs, out: seq<DirEntry>, name: string)
    requires HasReturned(s, t, root, disk, allowed) && HasReturned(s', u, root, disk, allowed)
    requires ZipCache.OneUsePerPath(allowed)
    ensures var listing, looking := ZipCache.Answer(s, t), ZipCache.Answer(s', u);
            var found := Lookup(ZipTop(dep, root), name, OneAnswer(root, looking));
            && (ListingFails(listing)
                <==> listing.None? || KeptOf(EntriesOf(disk, root.zipPath), root.stripPrefix) == [])
            && (ListingFails(listing) && listing.Some? ==> (!found.NoEnt? <==> name in dep.children))
            && (!ListingFails(listing) && UnionListing(out, dep, listing.value) ==>
                  && ((Mentions(out, name) <==> !found.NoEnt?) <==>
                        looking.Some? || name in dep.children || !Mentions(out, name))
                  && (found.Found? ==> DirEntry(found.mode, name, found.ino) in out)
                  && (name in dep.children ==> found == GetChild(dep, name)))
  {
    hide Find, ZipArgsFor, Join, UnionListing, Mentions, FreshIndex, IsFresh, Lookup, KeptOf, ZipCache.Reachable,
         ZipCache.OneUsePerPath, Lists;
    ReturnedIsFresh(s, t, root, disk, allowed);
    ReturnedIsFresh(s', u, root, disk, allowed);
    var listing, looking := ZipCache.Answer(s, t), ZipCache.Answer(s', u);
    FailedListing(dep, root, disk, listing, looking, name);
    if listing.Some? && UnionListing(out, dep, listing.value) {
      ListingAgreesWithLookup(out, dep, root, disk, listing, looking, name);
    }
  }

  // ----- The tree objects behind the values -----

  lemma {:induction false} ViewAt(top: DependencyRoot, segs: seq<string>) returns (n: DependencyRoot)
    requires top.Valid() && DepAt(top.View(), segs).Some?
    ensures n in top.nodes && n.Valid() && DepAt(top.View(), segs) == Some(n.View())
    decreases |segs|
  {
    top.Shape();
    if segs == [] {
      n := top;
    } else {
      var child := top.children[segs[0]];
      assert top.View().children[segs[0]] == child.View();
      n := ViewAt(child, segs[1..]);
      assert n in NodesOf(top.children);
    }
  }

  /** The arguments of the node's archive: the one its target names, the cleaned inner path, and its number plus one. */
  ghost predicate Requests(n: DependencyRoot, a: ZipArgs)
    reads n
  {
    && n.link.HARD? && a.inoStart == Wrap(n.inoGen.ino + 1)
    && exists inner :: Names(n.target, a.zipPath, inner) && a.stripPrefix == Clean(inner)
  }

  lemma {:induction false} ServedHasArchive(dep: Dep, a: ZipArgs)
    requires DepNodeFor(dep) == Some(ZipTop(dep, a))
    ensures dep.link.HARD? && a.inoStart == Wrap(dep.inoGen.ino + 1)
    ensures exists inner :: Names(dep.target, a.zipPath, inner) && a.stripPrefix == Clean(inner)
  {
    hide Clean, Wrap, Names, Find, ZipArgsFor;
    ArchiveOfTarget(dep.target, dep.inoGen.ino);
  }

  /** These are the arguments that GetChild opens the node's archive with. */
  lemma {:induction false} RequestIsServed(n: DependencyRoot, a: ZipArgs)
    requires n.Valid()
    ensures Requests(n, a) <==> DepNodeFor(n.View()) == Some(ZipTop(n.View(), a))
  {
    hide Clean, Wrap, Names, DepNodeFor;
    var dep := n.View();
    NodeOfTarget(dep);
    if DepNodeFor(dep) == Some(ZipTop(dep, a)) {
      ServedHasArchive(dep, a);
    }
  }

  /** Each archive is named by one target string. */
  ghost predicate OneTargetPerZip(nodes: set<DependencyRoot>) {
    forall m, n, archive, x, y | m in nodes && n in nodes && m.link.HARD? && n.link.HARD?
                                 && Names(m.target, archive, x) && Names(n.target, archive, y) ::
      m.target == n.target
  }

  lemma {:induction false} SameTargetSameIno(log: seq<Req>, i: nat, j: nat)
    requires i < |log| && j < |log| && log[i] == log[j] && Cached(log[i])
    ensures Assigned(log, i).ino == Assigned(log, j).ino
  {
    hide Blocks, Count, Wrap;
    BlockShared(log, i, j);
  }

  lemma {:induction false} RequestsAgree(nodes: set<DependencyRoot>, log: seq<Req>, m: DependencyRoot,
                                         n: DependencyRoot, a: ZipArgs, b: ZipArgs)
    requires Settled(nodes, log, 0, |log|) && OneTargetPerZip(nodes)
    requires m in nodes && n in nodes && Requests(m, a) && Requests(n, b) && a.zipPath == b.zipPath
    ensures a == b
  {
    hide Assigned, Clean, Names, Wrap;
    var x :| Names(m.target, a.zipPath, x) && a.stripPrefix == Clean(x);
    var y :| Names(n.target, b.zipPath, y) && b.stripPrefix == Clean(y);
    assert m.target == n.target;
    NamesFirst(m.target, a.zipPath, x);
    NamesFirst(n.target, b.zipPath, y);
    SameTargetSameIno(log, m.slot, n.slot);
  }

  /**
   The proviso of the cache, derived from the allocation: when each archive is named by one
   target, every request for an archive path has the same prefix and the same first number.
   */
  lemma {:induction false} RequestsAreConsistent(nodes: set<DependencyRoot>, log: seq<Req>, allowed: iset<ZipArgs>)
    requires Settled(nodes, log, 0, |log|) && OneTargetPerZip(nodes)
    requires forall a :: a in allowed ==> exists n :: n in nodes && Requests(n, a)
    ensures ZipCache.OneUsePerPath(allowed)
  {
    hide Settled, OneTargetPerZip, Requests;
    forall a, b | a in allowed && b in allowed && a.zipPath == b.zipPath ensures a == b {
      var m :| m in nodes && Requests(m, a);
      var n :| n in nodes && Requests(n, b);
      RequestsAgree(nodes, log, m, n, a, b);
    }
  }

  lemma {:induction false} NumbersOfTargetsApart(log: seq<Req>, i: nat, j: nat, a: ZipArgs, b: ZipArgs)
    requires i < |log| && j < |log| && log[i] != log[j] && Blocks(log) <= DISJOINT_BLOCKS
    requires ArchiveOf(log, i, a) && ArchiveOf(log, j, b)
    ensures forall k, l :: 0 <= k <= INO_STEP - 2 && 0 <= l <= INO_STEP - 2 ==> InoAt(a, k) != InoAt(b, l)
  {
    hide Blocks, Block, InoOfBlock, EntryNumber, InoAt, Assigned;
    BlockRange(log, i);
    BlockRange(log, j);
    BlockShared(log, i, j);
    forall k, l | 0 <= k <= INO_STEP - 2 && 0 <= l <= INO_STEP - 2 ensures InoAt(a, k) != InoAt(b, l) {
      EntryNumbered(log, i, a, k);
      EntryNumbered(log, j, b, l);
      NumbersApart(Block(log, i), Block(log, j), k, l);
    }
  }

  /**
   What the cache does otherwise. Two targets in one archive get numbers that never meet, so the
   second one to be served gets the first one's index, and that is its own only if neither keeps
   anything.
   */
  lemma {:induction false} WrongIndexServed(nodes: set<DependencyRoot>, log: seq<Req>, m: DependencyRoot,
                                            n: DependencyRoot, a: ZipArgs, b: ZipArgs, disk: Disk)
    returns (s: ZipCache.State)
    requires Settled(nodes, log, 0, |log|) && Blocks(log) <= DISJOINT_BLOCKS
    requires m in nodes && n in nodes && Requests(m, a) && Requests(n, b) && m.target != n.target
    requires a.zipPath == b.zipPath && a.zipPath in disk
    requires |KeptOf(disk[a.zipPath], a.stripPrefix)| <= INO_STEP - 1
        && |KeptOf(disk[a.zipPath], b.stripPrefix)| <= INO_STEP - 1
    ensures HasReturned(s, 0, b, disk, iset{a, b}) && ZipCache.Answer(s, 0).Some?
    ensures ZipCache.Answer(s, 0).value == IndexOf(disk[a.zipPath], a)
    ensures ZipCache.Answer(s, 0).value == FreshIndex(disk, b)
            <==> KeptOf(disk[a.zipPath], a.stripPrefix) == [] && KeptOf(disk[a.zipPath], b.stripPrefix) == []
  {
    hide Assigned, Wrap, Clean, Names, IndexOf, KeptOf, Blocks, InoAt;
    NumbersOfTargetsApart(log, m.slot, n.slot, a, b);
    ZipCache.OtherArgsDiffer(disk[a.zipPath], a, b);
    s := ZipCache.FirstRequestWins(disk, a, b);
  }

  /** With at most INO_STEP - 1 kept entries, no archive entry has the number of any dependency node. */
  lemma {:induction false} EntriesApartFromNodes(nodes: set<DependencyRoot>, log: seq<Req>, m: DependencyRoot,
                              o: DependencyRoot, a: ZipArgs, es: seq<Entry>, d: string, x: string)
    requires Settled(nodes, log, 0, |log|) && Blocks(log) <= DISJOINT_BLOCKS
    requires m in nodes && o in nodes && Requests(m, a)
    requires |KeptOf(es, a.stripPrefix)| <= INO_STEP - 1 && Lists(IndexOf(es, a), d, x)
    ensures IndexOf(es, a)[d][x].ino != o.inoGen.ino
  {
    hide Assigned, Wrap, Clean, Names, IndexOf, KeptOf, Blocks;
    EntryIsNoNode(log, m.slot, o.slot, a, es, d, x);
  }

  /** Nor do archives of different targets share an entry number. */
  lemma {:induction false} EntriesOfTargetsApart(nodes: set<DependencyRoot>, log: seq<Req>, m: DependencyRoot,
                              n: DependencyRoot, a: ZipArgs, b: ZipArgs, es: seq<Entry>, fs: seq<Entry>,
                              d: string, x: string, d': string, x': string)
    requires Settled(nodes, log, 0, |log|) && Blocks(log) <= DISJOINT_BLOCKS
    requires m in nodes && n in nodes && Requests(m, a) && Requests(n, b) && m.target != n.target
    requires |KeptOf(es, a.stripPrefix)| <= INO_STEP - 1 && |KeptOf(fs, b.stripPrefix)| <= INO_STEP - 1
    requires Lists(IndexOf(es, a), d, x) && Lists(IndexOf(fs, b), d', x')
    ensures IndexOf(es, a)[d][x].ino != IndexOf(fs, b)[d'][x'].ino
  {
    hide Assigned, Wrap, Clean, Names, IndexOf, KeptOf, Blocks;
    EntriesApart(log, m.slot, n.slot, a, b, es, fs, d, x, d', x');
  }
}
