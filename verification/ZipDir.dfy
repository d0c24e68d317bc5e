/**
 A directory inside an archive: Lookup and Readdir answer from the index, and a walk of lookups
 from the archive's top reaches exactly what the flat entry list describes.
 */
module ZipDir {
  import opened Wrappers
  import opened FuseTypes
  import opened NestedIndex
  import opened Paths
  import opened ZipIndex

  /** The node behind a looked-up name: a directory is just its path, a file carries its data. */
  datatype ZipNode = DirNode(path: string) | FileNode(data: FileData)

  function ModeOf(listed: Listed): Mode {
    if listed.fileData.None? then IFDIR else IFREG
  }

  function LookupIn(index: Index, path: string, name: string): Option<Listed> {
    if path in index && name in index[path] then Some(index[path][name]) else None
  }

  function NodeFor(listed: Listed, path: string, name: string): ZipNode {
    match listed.fileData
    case None => DirNode(Join(path, name))
    case Some(data) => FileNode(data)
  }

  function EntryFor(name: string, listed: Listed): DirEntry {
    DirEntry(ModeOf(listed), name, listed.ino)
  }

  /** What one directory of the index shows. */
  function Shown(dir: map<string, Listed>): (listing: Listing)
    ensures listing.Keys == dir.Keys
  {
    map n | n in dir :: EntryFor(n, dir[n])
  }

  /** One more name listed, when the names in `todo` were still to come. */
  lemma {:induction false} ListStep(lst: seq<DirEntry>, dir: map<string, Listed>, todo: set<string>, name: string,
                                    mode: Mode)
    requires todo <= dir.Keys && name in todo && ListsNames(lst, Shown(dir), dir.Keys - todo)
    requires mode == if dir[name].fileData.None? then IFDIR else IFREG
    ensures ListsNames(lst + [DirEntry(mode, name, dir[name].ino)], Shown(dir), dir.Keys - (todo - {name}))
  {
    hide ListsNames;
    ListOneMore(lst, Shown(dir), dir.Keys - todo, name);
    assert dir.Keys - (todo - {name}) == dir.Keys - todo + {name};
  }

  /** The loop of Readdir. Go's map iteration is modelled by picking the remaining names in any order. */
  method ListAll(ch: map<string, Listed>) returns (lst: seq<DirEntry>)
    ensures ListsExactly(lst, Shown(ch))
  {
    hide ListsNames, Shown;
    ghost var shown := Shown(ch);
    ListNone(shown);
    var out := new DirEntry[|ch|](_ => DirEntry(IFDIR, "", 0));
    var ind := 0;
    var todo := ch.Keys;
    assert out[..ind] == [] && ch.Keys - todo == {};
    while todo != {}
      invariant todo <= ch.Keys && |todo| + ind == |ch| && 0 <= ind <= out.Length
      invariant ListsNames(out[..ind], shown, ch.Keys - todo)
      decreases |todo|
    {
      var name :| name in todo;
      var d := ch[name];
      var mode := if d.fileData.None? then IFDIR else IFREG;
      ghost var before := out[..ind];
      ListStep(before, ch, todo, name, mode);
      out[ind] := DirEntry(mode, name, d.ino);
      assert out[..ind + 1] == before + [DirEntry(mode, name, d.ino)];
      todo := todo - {name};
      ind := ind + 1;
    }
    assert out[..ind] == out[..] && ch.Keys - todo == ch.Keys;
    lst := out[..];
  }

  /** The package-level counter of generations, and the two directory operations. */
  class ZipDirs {
    var lastGen: nat

    constructor ()
      ensures lastGen == 0
    {
      lastGen := 0;
    }

    /** `zip` is None when GetZip failed. A success uses up one generation, a failure none. */
    method Lookup(zip: Option<Index>, path: string, name: string) returns (found: Option<(ZipNode, StableAttr)>)
      modifies this
      ensures found.Some? <==> zip.Some? && Lists(zip.value, path, name)
      ensures found.Some? ==>
                var listed := zip.value[path][name];
                && found.value.0 == NodeFor(listed, path, name)
                && found.value.1 == StableAttr(ModeOf(listed), listed.ino, lastGen)
      ensures lastGen == if found.Some? then (old(lastGen) + 1) % TWO_64 else old(lastGen)
    {
      if zip.None? {
        return None;
      }
      if path in zip.value {
        var ch := zip.value[path];
        if name !in ch {
          return None;
        }
        var d := ch[name];
        var fullPath := Join(path, name);
        lastGen := (lastGen + 1) % TWO_64;
        if d.fileData.None? {
          return Some((DirNode(fullPath), StableAttr(IFDIR, d.ino, lastGen)));
        }
        return Some((FileNode(d.fileData.value), StableAttr(IFREG, d.ino, lastGen)));
      }
      return None;
    }

    method Readdir(zip: Option<Index>, path: string) returns (lst: Option<seq<DirEntry>>)
      ensures lst.Some? <==> zip.Some? && path in zip.value
      ensures lst.Some? ==> ListsExactly(lst.value, Shown(zip.value[path]))
    {
      if zip.None? || path !in zip.value {
        return None;
      }
      var entries := ListAll(zip.value[path]);
      lst := Some(entries);
    }
  }

  // ----- Walking -----

  /** Repeated Lookup, starting in directory `path`. */
  function WalkIndex(index: Index, path: string, segs: seq<string>): Option<ZipNode>
    decreases |segs|
  {
    if segs == [] then Some(DirNode(path))
    else
      match LookupIn(index, path, segs[0])
      case None => None
      case Some(listed) =>
        match NodeFor(listed, path, segs[0])
        case DirNode(below) => WalkIndex(index, below, segs[1..])
        case FileNode(data) => if |segs| == 1 then Some(FileNode(data)) else None
  }

  ghost predicate AllWellNamed(entries: seq<Entry>, prefix: string) {
    forall j :: 0 <= j < |KeptOf(entries, prefix)| ==> WellNamed(KeptOf(entries, prefix)[j], prefix)
  }

  /** Entry j of the kept entries is the last one for the path segs. */
  ghost predicate LastFor(kept: seq<Entry>, prefix: string, segs: seq<string>, j: int)
    requires forall k :: 0 <= k < |kept| ==> Kept(kept[k], prefix)
  {
    0 <= j < |kept| && Segs(kept[j], prefix) == segs
    && forall k :: j < k < |kept| ==> Segs(kept[k], prefix) != segs
  }

  ghost predicate ListedFor(entries: seq<Entry>, prefix: string, segs: seq<string>) {
    exists j :: LastFor(KeptOf(entries, prefix), prefix, segs, j)
  }

  /** The last entry for segs is a directory. */
  ghost predicate DirectoryFor(entries: seq<Entry>, prefix: string, segs: seq<string>) {
    exists j :: LastFor(KeptOf(entries, prefix), prefix, segs, j) && KeptOf(entries, prefix)[j].kind.Directory?
  }

  function EntryNode(e: Entry, zipPath: string, segs: seq<string>): ZipNode {
    if e.kind.Directory? then DirNode(JoinSlash(segs)) else FileNode(FileData(e.header, zipPath))
  }

  /** Writes under the joined parent path are exactly the entries with these components. */
  lemma {:induction false} WritesAreEntries(entries: seq<Entry>, a: ZipArgs, segs: seq<string>, j: int)
    requires AllWellNamed(entries, a.stripPrefix) && AllPlain(segs) && |segs| >= 1
    ensures LastPlaced(PlacementsOf(entries, a), JoinSlash(segs[..|segs| - 1]), segs[|segs| - 1], j)
            <==> LastFor(KeptOf(entries, a.stripPrefix), a.stripPrefix, segs, j)
  {
    hide Clean, Split, Join, Kept, KeptOf, Segs, JoinSlash, PlacementOf;
    var kept := KeptOf(entries, a.stripPrefix);
    var m := |segs| - 1;
    forall k | 0 <= k < |kept|
      ensures WrittenAt(PlacementsOf(entries, a)[k], JoinSlash(segs[..m]), segs[m])
              <==> Segs(kept[k], a.stripPrefix) == segs
    {
      PlaceBySegments(kept[k], a, k);
      var own := Segs(kept[k], a.stripPrefix);
      assert AllPlain(own) by { assert WellNamed(kept[k], a.stripPrefix); }
      if JoinSlash(own[..|own| - 1]) == JoinSlash(segs[..m]) {
        JoinSlashInjective(own[..|own| - 1], segs[..m]);
      }
      assert own == own[..|own| - 1] + [own[|own| - 1]] && segs == segs[..m] + [segs[m]];
    }
  }

  /** One lookup step: the index answers for the path segs as the last entry for it says. */
  lemma {:induction false} LookupIsLastEntry(entries: seq<Entry>, a: ZipArgs, segs: seq<string>)
    requires AllWellNamed(entries, a.stripPrefix) && AllPlain(segs) && |segs| >= 1
    ensures var found := LookupIn(IndexOf(entries, a), JoinSlash(segs[..|segs| - 1]), segs[|segs| - 1]);
            && (found.Some? <==> ListedFor(entries, a.stripPrefix, segs))
            && forall j :: LastFor(KeptOf(entries, a.stripPrefix), a.stripPrefix, segs, j) ==>
                 && found.Some? && found.value.ino == InoAt(a, j)
                 && NodeFor(found.value, JoinSlash(segs[..|segs| - 1]), segs[|segs| - 1])
                    == EntryNode(KeptOf(entries, a.stripPrefix)[j], a.zipPath, segs)
                 && ModeOf(found.value) == if KeptOf(entries, a.stripPrefix)[j].kind.Directory? then IFDIR else IFREG
  {
    hide Clean, Split, Join, Kept, KeptOf, Segs, JoinSlash, IndexOf, PlacementsOf;
    var m := |segs| - 1;
    var d, n := JoinSlash(segs[..m]), segs[m];
    IndexRefinement(entries, a, d, n);
    forall j: int
      ensures LastPlaced(PlacementsOf(entries, a), d, n, j)
              <==> LastFor(KeptOf(entries, a.stripPrefix), a.stripPrefix, segs, j)
    {
      WritesAreEntries(entries, a, segs, j);
    }
    JoinPlain(segs[..m], n);
    assert segs[..m] + [n] == segs;
    if ListedFor(entries, a.stripPrefix, segs) {
      var j :| LastFor(KeptOf(entries, a.stripPrefix), a.stripPrefix, segs, j);
      assert LastPlaced(PlacementsOf(entries, a), d, n, j);
    }
    if Lists(IndexOf(entries, a), d, n) {
      var j :| LastPlaced(PlacementsOf(entries, a), d, n, j);
      assert LastFor(KeptOf(entries, a.stripPrefix), a.stripPrefix, segs, j);
    }
  }

  lemma {:induction false} WalkFrom(entries: seq<Entry>, a: ZipArgs, done: seq<string>, rest: seq<string>)
    requires AllWellNamed(entries, a.stripPrefix) && AllPlain(done + rest) && |rest| >= 1
    ensures var found := WalkIndex(IndexOf(entries, a), JoinSlash(done), rest);
            && (found.Some? <==>
                  && ListedFor(entries, a.stripPrefix, done + rest)
                  && forall k :: |done| < k < |done + rest| ==>
                      DirectoryFor(entries, a.stripPrefix, (done + rest)[..k]))
            && forall j :: found.Some? && LastFor(KeptOf(entries, a.stripPrefix), a.stripPrefix, done + rest, j) ==>
                 found.value == EntryNode(KeptOf(entries, a.stripPrefix)[j], a.zipPath, done + rest)
    decreases |rest|
  {
    hide Clean, Split, Join, Kept, KeptOf, Segs, JoinSlash, IndexOf, LastFor;
    var segs := done + [rest[0]];
    assert AllPlain(segs) by { assert segs == (done + rest)[..|done| + 1]; }
    LookupIsLastEntry(entries, a, segs);
    assert segs[..|done|] == done;
    if |rest| == 1 {
      assert segs == done + rest;
    } else {
      assert segs + rest[1..] == done + rest;
      assert (done + rest)[..|done| + 1] == segs;
      WalkFrom(entries, a, segs, rest[1..]);
    }
  }

  /**
   The exact meaning of a walk, for any archive whose kept names are plain: it succeeds if and
   only if the path is listed and each of its proper ancestors was last listed as a directory,
   and it ends at the last entry for the path.
   */
  lemma {:induction false} WalkMeansListed(entries: seq<Entry>, a: ZipArgs, segs: seq<string>)
    requires AllWellNamed(entries, a.stripPrefix) && AllPlain(segs) && |segs| >= 1
    ensures var found := WalkIndex(IndexOf(entries, a), "", segs);
            && (found.Some? <==>
                  && ListedFor(entries, a.stripPrefix, segs)
                  && forall k :: 1 <= k < |segs| ==> DirectoryFor(entries, a.stripPrefix, segs[..k]))
            && forall j :: found.Some? && LastFor(KeptOf(entries, a.stripPrefix), a.stripPrefix, segs, j) ==>
                 found.value == EntryNode(KeptOf(entries, a.stripPrefix)[j], a.zipPath, segs)
  {
    assert [] + segs == segs;
    WalkFrom(entries, a, [], segs);
  }

  /**
   A directory has a listing exactly when a kept entry lies properly below it. So an explicit but
   empty directory is found by a walk and cannot be read.
   */
  lemma {:induction false} DirectoryKeys(entries: seq<Entry>, a: ZipArgs, segs: seq<string>)
    requires AllWellNamed(entries, a.stripPrefix) && AllPlain(segs)
    ensures var kept := KeptOf(entries, a.stripPrefix);
            JoinSlash(segs) in IndexOf(entries, a) <==>
              exists j :: 0 <= j < |kept| && segs < Segs(kept[j], a.stripPrefix)
  {
    hide Clean, Split, Join, Kept, KeptOf, Segs, JoinSlash, IndexOf, PlacementOf;
    var kept, ps := KeptOf(entries, a.stripPrefix), PlacementsOf(entries, a);
    IndexRefinement(entries, a, JoinSlash(segs), "");
    forall j | 0 <= j < |kept| ensures JoinSlash(segs) in ps[j].dirs <==> segs < Segs(kept[j], a.stripPrefix) {
      PlaceBySegments(kept[j], a, j);
      var own := Segs(kept[j], a.stripPrefix);
      assert AllPlain(own) by { assert WellNamed(kept[j], a.stripPrefix); }
      if i :| 0 <= i < |own| && JoinSlash(segs) == JoinSlash(own[..i]) {
        JoinSlashInjective(segs, own[..i]);
      }
      if segs < own {
        assert segs == own[..|segs|];
      }
    }
  }

  /** Every proper ancestor of a kept entry is itself, last, listed as a directory. */
  ghost predicate ClosedArchive(entries: seq<Entry>, prefix: string) {
    forall j, k :: 0 <= j < |KeptOf(entries, prefix)| && 1 <= k < |Segs(KeptOf(entries, prefix)[j], prefix)| ==>
      DirectoryFor(entries, prefix, Segs(KeptOf(entries, prefix)[j], prefix)[..k])
  }

  lemma {:induction false} LastForExists(kept: seq<Entry>, prefix: string, segs: seq<string>, i: nat) returns (j: nat)
    requires forall k :: 0 <= k < |kept| ==> Kept(kept[k], prefix)
    requires i < |kept| && Segs(kept[i], prefix) == segs
    ensures LastFor(kept, prefix, segs, j)
    decreases |kept| - i
  {
    if k :| i < k < |kept| && Segs(kept[k], prefix) == segs {
      j := LastForExists(kept, prefix, segs, k);
    } else {
      j := i;
    }
  }

  /** In a closed archive a walk succeeds exactly on the kept entries. */
  lemma {:induction false} WalkInClosedArchive(entries: seq<Entry>, a: ZipArgs, segs: seq<string>)
    requires AllWellNamed(entries, a.stripPrefix) && AllPlain(segs) && |segs| >= 1
    requires ClosedArchive(entries, a.stripPrefix)
    ensures var kept := KeptOf(entries, a.stripPrefix);
            WalkIndex(IndexOf(entries, a), "", segs).Some?
            <==> exists j :: 0 <= j < |kept| && Segs(kept[j], a.stripPrefix) == segs
  {
    hide Clean, Split, Join, Kept, KeptOf, Segs, IndexOf, WalkIndex;
    WalkMeansListed(entries, a, segs);
    var kept := KeptOf(entries, a.stripPrefix);
    if i :| 0 <= i < |kept| && Segs(kept[i], a.stripPrefix) == segs {
      var j := LastForExists(kept, a.stripPrefix, segs, i);
    }
  }
}
