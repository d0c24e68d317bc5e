/**
 What the two-level index of an archive means.

 `IndexOf` folds the archive's flat entry list into directory path -> name -> entry, in the
 order of the list. The lemmas below it say what the fold computes without mentioning the fold:
 which keys exist, which entry each key carries, and which inode number it has.
 */
module ZipIndex {
  import opened Wrappers
  import opened NestedIndex
  import opened Paths

  /** Go's uint64 arithmetic wraps at this number. */
  const TWO_64 := 0x1_0000_0000_0000_0000

  datatype Kind = Directory | Regular | Symlink | Irregular

  /** The fields of a zip header that the index copies or uses. */
  datatype Header = Header(mode: nat, modTime: int, dataOffset: int,
                           compressedSize: nat, uncompressedSize: nat, compression: nat)

  datatype Entry = Entry(name: string, kind: Kind, header: Header)

  datatype FileData = FileData(header: Header, zipPath: string)

  /** A nil fileData marks a directory. */
  datatype Listed = Listed(ino: nat, fileData: Option<FileData>)

  type Index = Nested<Listed>

  /** The arguments one archive is indexed with. */
  datatype ZipArgs = ZipArgs(zipPath: string, stripPrefix: string, inoStart: nat)

  // ----- One entry -----

  predicate HasPrefix(s: string, prefix: string) {
    |prefix| <= |s| && s[..|prefix|] == prefix
  }

  /** An entry is indexed when its cleaned name properly extends the prefix, as a string. */
  predicate Kept(e: Entry, prefix: string) {
    HasPrefix(Clean(e.name), prefix) && Clean(e.name) != prefix
  }

  function Stripped(e: Entry, prefix: string): (s: string)
    requires Kept(e, prefix)
    ensures s != ""
  {
    Clean(e.name)[|prefix|..]
  }

  function Parts(e: Entry, prefix: string): (parts: seq<string>)
    requires Kept(e, prefix)
    ensures |parts| >= 1
  {
    Split(Stripped(e, prefix))
  }

  /** The directory key reached after the first i parts: path.Join from the left. */
  function Chain(parts: seq<string>, i: nat): string
    requires i <= |parts|
  {
    if i == 0 then "" else Join(Chain(parts, i - 1), parts[i - 1])
  }

  /** The directory keys passed on the way to the last part. */
  function Chains(parts: seq<string>): (dirs: seq<string>)
    ensures |dirs| == |parts|
    ensures forall i :: 0 <= i < |parts| ==> dirs[i] == Chain(parts, i)
  {
    seq(|parts|, i requires 0 <= i < |parts| => Chain(parts, i))
  }

  function DataOf(e: Entry, zipPath: string): Option<FileData> {
    if e.kind == Directory then None else Some(FileData(e.header, zipPath))
  }

  /** The inode number of the k-th kept entry. */
  function InoAt(a: ZipArgs, k: nat): (ino: nat)
    ensures ino < TWO_64
  {
    (a.inoStart + k) % TWO_64
  }

  /** Where and what the k-th kept entry is recorded. */
  function PlacementOf(e: Entry, a: ZipArgs, k: nat): (p: Placed<Listed>)
    requires Kept(e, a.stripPrefix)
    ensures p.Valid()
    ensures p.value == Listed(InoAt(a, k), DataOf(e, a.zipPath))
  {
    var parts := Parts(e, a.stripPrefix);
    Placed(Chains(parts), parts[|parts| - 1], Listed(InoAt(a, k), DataOf(e, a.zipPath)))
  }

  // ----- The whole list -----

  /** The kept entries, in archive order. */
  function KeptOf(entries: seq<Entry>, prefix: string): (kept: seq<Entry>)
    ensures forall k :: 0 <= k < |kept| ==> Kept(kept[k], prefix) && kept[k] in entries
    ensures |kept| <= |entries|
  {
    if entries == [] then []
    else
      var e := entries[|entries| - 1];
      KeptOf(entries[..|entries| - 1], prefix) + if Kept(e, prefix) then [e] else []
  }

  ghost function Placements(kept: seq<Entry>, a: ZipArgs): (ps: seq<Placed<Listed>>)
    requires forall k :: 0 <= k < |kept| ==> Kept(kept[k], a.stripPrefix)
    ensures |ps| == |kept| && AllValid(ps)
    ensures forall k :: 0 <= k < |kept| ==> ps[k] == PlacementOf(kept[k], a, k)
  {
    seq(|kept|, k requires 0 <= k < |kept| => PlacementOf(kept[k], a, k))
  }

  ghost function PlacementsOf(entries: seq<Entry>, a: ZipArgs): (ps: seq<Placed<Listed>>)
    ensures AllValid(ps)
  {
    Placements(KeptOf(entries, a.stripPrefix), a)
  }

  /** The index that a fresh sequential build of the archive produces. */
  ghost function IndexOf(entries: seq<Entry>, a: ZipArgs): Index {
    Fold(PlacementsOf(entries, a))
  }

  /** One more entry in the list changes the placements by at most one write at the end. */
  lemma {:induction false} PlacementsStep(entries: seq<Entry>, a: ZipArgs, i: nat)
    requires i < |entries|
    ensures var kept := KeptOf(entries[..i], a.stripPrefix);
            PlacementsOf(entries[..i + 1], a) == PlacementsOf(entries[..i], a)
              + if Kept(entries[i], a.stripPrefix) then [PlacementOf(entries[i], a, |kept|)] else []
  {
    hide Clean, Split, Join;
    assert entries[..i + 1][..i] == entries[..i];
  }

  /** What one iteration of the build does, when k entries were kept before it. */
  function AddEntry(index: Index, e: Entry, a: ZipArgs, k: nat): Index {
    if Kept(e, a.stripPrefix) then Put(index, PlacementOf(e, a, k)) else index
  }

  lemma {:induction false} IndexStart(a: ZipArgs)
    ensures IndexOf([], a) == map[] && KeptOf([], a.stripPrefix) == []
    ensures a.inoStart < TWO_64 ==> InoAt(a, 0) == a.inoStart
  {
  }

  lemma {:induction false} InoStep(a: ZipArgs, k: nat)
    ensures InoAt(a, k + 1) == (InoAt(a, k) + 1) % TWO_64
  {
  }

  lemma {:induction false} IndexStep(entries: seq<Entry>, a: ZipArgs, i: nat)
    requires i < |entries|
    ensures var kept := KeptOf(entries[..i], a.stripPrefix);
            && IndexOf(entries[..i + 1], a) == AddEntry(IndexOf(entries[..i], a), entries[i], a, |kept|)
            && KeptOf(entries[..i + 1], a.stripPrefix)
               == kept + if Kept(entries[i], a.stripPrefix) then [entries[i]] else []
  {
    hide Clean, Split, Join, Put;
    PlacementsStep(entries, a, i);
    assert entries[..i + 1][..i] == entries[..i];
    var ps := PlacementsOf(entries[..i + 1], a);
    if Kept(entries[i], a.stripPrefix) {
      assert ps[..|ps| - 1] == PlacementsOf(entries[..i], a);
      assert ps[|ps| - 1] == PlacementOf(entries[i], a, |KeptOf(entries[..i], a.stripPrefix)|);
      assert Fold(ps) == Put(Fold(ps[..|ps| - 1]), ps[|ps| - 1]);
    } else {
      assert ps == PlacementsOf(entries[..i], a);
    }
  }

  /**
   The index refines the flat entry list: a directory key exists exactly when a kept entry lies
   below it, a name exists exactly when a kept entry is recorded there, and it carries the inode
   number, kind and data of the last such entry.
   */
  lemma {:induction false} IndexRefinement(entries: seq<Entry>, a: ZipArgs, d: string, n: string)
    ensures var ps := PlacementsOf(entries, a);
            && (d in IndexOf(entries, a) <==> exists j :: 0 <= j < |ps| && d in ps[j].dirs)
            && (Lists(IndexOf(entries, a), d, n) <==> exists j :: 0 <= j < |ps| && WrittenAt(ps[j], d, n))
            && (Lists(IndexOf(entries, a), d, n) ==> exists j :: LastPlaced(ps, d, n, j))
            && forall j :: LastPlaced(ps, d, n, j) ==>
                 IndexOf(entries, a)[d][n]
                 == Listed(InoAt(a, j), DataOf(KeptOf(entries, a.stripPrefix)[j], a.zipPath))
  {
    hide Clean, Split, Join, Fold, KeptOf;
    var ps := PlacementsOf(entries, a);
    FoldKeys(ps, d);
    if i :| 0 <= i < |ps| && WrittenAt(ps[i], d, n) {
      var j := PickLast(ps, d, n, i);
      FoldValue(ps, d, n, j);
    }
    if Lists(IndexOf(entries, a), d, n) {
      var j := FoldListed(ps, d, n);
    }
    forall j | LastPlaced(ps, d, n, j)
      ensures IndexOf(entries, a)[d][n]
              == Listed(InoAt(a, j), DataOf(KeptOf(entries, a.stripPrefix)[j], a.zipPath))
    {
      FoldValue(ps, d, n, j);
    }
  }

  // ----- Inode numbers -----

  /** Every listed name has the number of some kept entry's position, and no two share a position. */
  lemma {:induction false} NumberOfListed(entries: seq<Entry>, a: ZipArgs, d: string, n: string) returns (j: nat)
    requires Lists(IndexOf(entries, a), d, n)
    ensures j < |KeptOf(entries, a.stripPrefix)| && LastPlaced(PlacementsOf(entries, a), d, n, j)
    ensures IndexOf(entries, a)[d][n].ino == InoAt(a, j)
  {
    hide Clean, Split, Join, Fold, KeptOf;
    j := FoldListed(PlacementsOf(entries, a), d, n);
    FoldValue(PlacementsOf(entries, a), d, n, j);
  }

  /**
   Inode numbers follow archive order: they lie in [inoStart, inoStart + kept entries), the name
   written later has the larger number, and two names never share one, as long as the range
   itself fits in uint64.
   */
  lemma {:induction false} InodesFollowArchiveOrder(entries: seq<Entry>, a: ZipArgs, d1: string, n1: string,
                                                    d2: string, n2: string)
    requires a.inoStart + |KeptOf(entries, a.stripPrefix)| <= TWO_64
    requires Lists(IndexOf(entries, a), d1, n1) && Lists(IndexOf(entries, a), d2, n2)
    ensures var x, y := IndexOf(entries, a)[d1][n1].ino, IndexOf(entries, a)[d2][n2].ino;
            && a.inoStart <= x < a.inoStart + |KeptOf(entries, a.stripPrefix)|
            && ((d1, n1) != (d2, n2) ==> x != y)
            && forall i, j | LastPlaced(PlacementsOf(entries, a), d1, n1, i)
                && LastPlaced(PlacementsOf(entries, a), d2, n2, j) ::
                 i < j <==> x < y
  {
    hide Clean, Split, Join, Fold, KeptOf;
    var ps := PlacementsOf(entries, a);
    var i := FoldListed(ps, d1, n1);
    var j := FoldListed(ps, d2, n2);
    FoldValue(ps, d1, n1, i);
    FoldValue(ps, d2, n2, j);
    assert InoAt(a, i) == a.inoStart + i && InoAt(a, j) == a.inoStart + j;
  }

  // ----- Component-wise reading of the strip prefix -----

  /** The path components of a kept entry below the strip prefix. */
  function Segs(e: Entry, prefix: string): (segs: seq<string>)
    requires Kept(e, prefix)
    ensures |segs| >= 1
  {
    var parts := Parts(e, prefix);
    if |parts| > 1 && parts[0] == "" then parts[1..] else parts
  }

  predicate WellNamed(e: Entry, prefix: string) {
    Kept(e, prefix) ==> AllPlain(Segs(e, prefix))
  }

  /** A name that cleans to a relative path without leading "..". */
  predicate LocalName(name: string) {
    AllPlain(Split(Clean(name)))
  }

  /** The strip prefix names a directory that properly contains the entry. */
  predicate InsidePrefix(e: Entry, prefix: string) {
    Split(prefix) < Split(Clean(e.name))
  }

  lemma {:induction false} SlashAssoc(x: string, y: string, z: string)
    ensures x + "/" + y + "/" + z == x + "/" + (y + "/" + z)
  {
  }

  lemma {:induction false} SplitConcat(parts: seq<string>, rest: string)
    requires |parts| >= 1
    requires forall k :: 0 <= k < |parts| ==> '/' !in parts[k]
    ensures Split(JoinSlash(parts) + "/" + rest) == parts + Split(rest)
  {
    hide Split;
    if |parts| == 1 {
      SplitFirst(parts[0], rest);
    } else {
      var tail := parts[1..];
      assert JoinSlash(parts) == parts[0] + "/" + JoinSlash(tail);
      hide JoinSlash;
      SplitConcat(tail, rest);
      SlashAssoc(parts[0], JoinSlash(tail), rest);
      SplitFirst(parts[0], JoinSlash(tail) + "/" + rest);
      assert parts == [parts[0]] + tail;
    }
  }

  lemma {:induction false} JoinSlashConcat(a: seq<string>, b: seq<string>)
    requires |a| >= 1 && |b| >= 1
    ensures JoinSlash(a + b) == JoinSlash(a) + "/" + JoinSlash(b)
  {
    if |a| == 1 {
      assert (a + b)[1..] == b;
    } else {
      JoinSlashConcat(a[1..], b);
      assert (a + b)[1..] == a[1..] + b;
    }
  }

  lemma {:induction false} InsideText(full: string, prefix: string)
    requires Split(prefix) < Split(full)
    ensures full == prefix + "/" + JoinSlash(Split(full)[|Split(prefix)|..])
  {
    hide Split;
    var p := Split(prefix);
    SplitThenJoin(prefix);
    SplitThenJoin(full);
    assert Split(full) == p + Split(full)[|p|..];
    JoinSlashConcat(p, Split(full)[|p|..]);
  }

  lemma {:induction false} InsideIsKept(e: Entry, prefix: string)
    requires InsidePrefix(e, prefix)
    ensures Kept(e, prefix) && Stripped(e, prefix)[0] == '/'
    ensures Parts(e, prefix) == [""] + Split(Clean(e.name))[|Split(prefix)|..]
  {
    hide Clean, Split, JoinSlash;
    var full, p := Clean(e.name), Split(prefix);
    var rest := Split(full)[|p|..];
    InsideText(full, prefix);
    assert Stripped(e, prefix) == "" + "/" + JoinSlash(rest);
    SplitFirst("", JoinSlash(rest));
    JoinThenSplit(rest);
  }

  lemma {:induction false} SlashIsInside(e: Entry, prefix: string)
    requires Kept(e, prefix) && Stripped(e, prefix)[0] == '/'
    ensures InsidePrefix(e, prefix)
  {
    hide Clean, Split;
    var s := Stripped(e, prefix);
    assert Clean(e.name) == prefix + "/" + s[1..];
    SplitThenJoin(prefix);
    SplitConcat(Split(prefix), s[1..]);
  }

  /**
   The prefix test compares strings, not components. It means "inside the prefix directory"
   exactly for the kept entries whose remaining path starts with a slash; those are recorded
   under their components below the prefix.
   */
  lemma {:induction false} PrefixMeansInside(e: Entry, prefix: string)
    ensures InsidePrefix(e, prefix) <==> Kept(e, prefix) && Stripped(e, prefix)[0] == '/'
    ensures InsidePrefix(e, prefix) ==> Parts(e, prefix) == [""] + Split(Clean(e.name))[|Split(prefix)|..]
    ensures InsidePrefix(e, prefix) && LocalName(e.name) ==> WellNamed(e, prefix)
  {
    hide Clean, Split, JoinSlash;
    if InsidePrefix(e, prefix) { InsideIsKept(e, prefix); }
    if Kept(e, prefix) && Stripped(e, prefix)[0] == '/' { SlashIsInside(e, prefix); }
  }

  /** An entry whose cleaned name is up + segs is indexed under segs, below the prefix up. */
  lemma {:induction false} EntryInside(e: Entry, up: seq<string>, segs: seq<string>)
    requires AllPlain(up + segs) && up != [] && segs != [] && Clean(e.name) == JoinSlash(up + segs)
    ensures var prefix := JoinSlash(up);
            Kept(e, prefix) && InsidePrefix(e, prefix) && WellNamed(e, prefix) && Segs(e, prefix) == segs
  {
    hide Clean, Split, JoinSlash;
    var prefix := JoinSlash(up);
    assert forall k :: 0 <= k < |up| ==> up[k] == (up + segs)[k];
    assert forall k :: 0 <= k < |segs| ==> segs[k] == (up + segs)[|up| + k];
    assert Split(prefix) == up by { JoinThenSplit(up); }
    assert Split(Clean(e.name)) == up + segs by { JoinThenSplit(up + segs); }
    PrefixMeansInside(e, prefix);
    assert (up + segs)[|up|..] == segs && ([""] + segs)[1..] == segs;
  }

  /**
   From the raw name: empty components, dots and trailing slashes change nothing, so a directory's
   own entry, which ends in a slash, is indexed like any other.
   */
  lemma {:induction false} RawEntryInside(e: Entry, raw: seq<string>, up: seq<string>, segs: seq<string>)
    requires Components(raw) && raw[0] != "" && ".." !in raw && e.name == JoinSlash(raw)
    requires Spelled(raw) == up + segs && up != [] && segs != []
    ensures var prefix := JoinSlash(up);
            Kept(e, prefix) && InsidePrefix(e, prefix) && WellNamed(e, prefix) && Segs(e, prefix) == segs
  {
    hide Clean, Split, JoinSlash, Kept, Segs, Spelled;
    CleanSpells(raw);
    EntryInside(e, up, segs);
  }

  lemma {:induction false} CleanWithSlash(segs: seq<string>)
    requires AllPlain(segs) && segs != []
    ensures Clean(JoinSlash(segs)) == Clean(JoinSlash(segs) + "/") == JoinSlash(segs)
  {
    hide Clean;
    CleanPlain(segs);
    assert Components(segs) && Plain(segs[0]);
    JoinSlashSnoc(segs, "");
    assert JoinSlash(segs) + "/" + "" == JoinSlash(segs) + "/";
    assert segs + [""] + [] == segs + [""] && segs + [] == segs;
    CleanSkips(segs, "", []);
  }

  /** The entry up/segs, with or without a trailing slash. */
  lemma {:induction false} DirectoryEntryInside(e: Entry, up: seq<string>, segs: seq<string>)
    requires AllPlain(up + segs) && up != [] && segs != []
    requires e.name == JoinSlash(up + segs) || e.name == JoinSlash(up + segs) + "/"
    ensures var prefix := JoinSlash(up);
            Kept(e, prefix) && InsidePrefix(e, prefix) && WellNamed(e, prefix) && Segs(e, prefix) == segs
  {
    hide Clean, Split, Kept, Segs, WellNamed, InsidePrefix;
    CleanWithSlash(up + segs);
    EntryInside(e, up, segs);
  }

  /** The prefix directory itself is never indexed. */
  lemma {:induction false} PrefixEntrySkipped(e: Entry, up: seq<string>)
    requires AllPlain(up) && up != [] && (e.name == JoinSlash(up) || e.name == JoinSlash(up) + "/")
    ensures !Kept(e, JoinSlash(up))
  {
    hide Clean, JoinSlash;
    CleanWithSlash(up);
  }

  lemma {:induction false} LongerLast(up: seq<string>, last: string, tail: string)
    ensures JoinSlash(up + [last + tail]) == JoinSlash(up + [last]) + tail
  {
    if up == [] {
      assert up + [last] == [last] && up + [last + tail] == [last + tail];
    } else {
      JoinSlashSnoc(up, last);
      JoinSlashSnoc(up, last + tail);
    }
  }

  /**
   A sibling directory whose name merely starts with the last name of the prefix is kept too, under
   a mangled name: the string test is not the component test. `up` are the prefix's other names.
   */
  lemma {:induction false} SiblingKept(e: Entry, up: seq<string>, last: string, tail: string, rest: seq<string>)
    requires AllPlain(up + [last]) && AllPlain(up + [last + tail] + rest) && Plain(tail) && rest != []
    requires e.name == JoinSlash(up + [last + tail] + rest)
    ensures var prefix := JoinSlash(up + [last]);
            Kept(e, prefix) && !InsidePrefix(e, prefix) && Parts(e, prefix) == [tail] + rest
  {
    hide Clean, Split;
    var prefix := JoinSlash(up + [last]);
    CleanPlain(up + [last + tail] + rest);
    JoinSlashConcat(up + [last + tail], rest);
    LongerLast(up, last, tail);
    assert Clean(e.name) == prefix + (tail + "/" + JoinSlash(rest));
    assert Stripped(e, prefix) == tail + "/" + JoinSlash(rest);
    SplitFirst(tail, JoinSlash(rest));
    assert forall k :: 0 <= k < |rest| ==> rest[k] == (up + [last + tail] + rest)[|up| + 1 + k];
    JoinThenSplit(rest);
    assert Stripped(e, prefix)[0] == tail[0] && tail[0] in tail;
    PrefixMeansInside(e, prefix);
  }

  /** So an entry beside the prefix directory takes the very place of one inside it. */
  lemma {:induction false} SiblingCollides(inside: Entry, beside: Entry, up: seq<string>, last: string, tail: string)
    requires AllPlain(up + [last, tail]) && AllPlain(up + [last + tail])
    requires inside.name == JoinSlash(up + [last, tail]) && beside.name == JoinSlash(up + [last + tail])
    ensures var prefix := JoinSlash(up + [last]);
            && Kept(inside, prefix) && Kept(beside, prefix) && InsidePrefix(inside, prefix)
                && !InsidePrefix(beside, prefix)
            && Segs(inside, prefix) == Segs(beside, prefix) == [tail]
  {
    hide Clean, Split;
    var prefix := JoinSlash(up + [last]);
    CleanPlain(up + [last, tail]);
    CleanPlain(up + [last + tail]);
    assert up + [last, tail] == (up + [last]) + [tail] && Plain((up + [last, tail])[|up| + 1]);
    JoinSlashSnoc(up + [last], tail);
    LongerLast(up, last, tail);
    SplitNoSlash(tail);
    SplitFirst("", tail);
    assert Stripped(inside, prefix) == "" + "/" + tail && Stripped(beside, prefix) == tail;
    assert tail[0] in tail;
    PrefixMeansInside(inside, prefix);
    PrefixMeansInside(beside, prefix);
  }

  /**
   A target that names a whole archive has the empty strip prefix, which cleaning turns into ".":
   then only names that start with a dot are kept.
   */
  lemma {:induction false} WholeArchivePrefix(e: Entry)
    ensures Kept(e, Clean("")) <==> |Clean(e.name)| > 1 && Clean(e.name)[0] == '.'
  {
    assert Clean("") == ".";
    hide Clean;
    var full := Clean(e.name);
    if |full| > 1 && full[0] == '.' {
      assert full[..1] == ".";
    }
  }

  lemma {:induction false} JoinNothing()
    ensures JoinSlash([]) == ""
  {
  }

  lemma {:induction false} ChainPlain(parts: seq<string>, i: nat)
    requires i <= |parts| && AllPlain(parts)
    ensures Chain(parts, i) == JoinSlash(parts[..i])
  {
    hide Join, JoinSlash, Plain;
    if i == 0 {
      assert parts[..0] == [];
      JoinNothing();
    } else {
      ChainPlain(parts, i - 1);
      JoinPlain(parts[..i - 1], parts[i - 1]);
      assert parts[..i - 1] + [parts[i - 1]] == parts[..i];
    }
  }

  lemma {:induction false} ChainAfterSlash(parts: seq<string>, i: nat)
    requires 1 <= i <= |parts| && parts[0] == ""
    ensures Chain(parts, i) == Chain(parts[1..], i - 1)
  {
    if i > 1 { ChainAfterSlash(parts, i - 1); }
  }

  lemma {:induction false} DirsAreAncestors(dirs: seq<string>, segs: seq<string>, off: nat)
    requires off <= 1 <= |segs| && |dirs| == |segs| + off
    requires forall i :: 0 <= i < |segs| ==> dirs[i + off] == JoinSlash(segs[..i])
    requires dirs[0] == JoinSlash(segs[..0])
    ensures forall d :: d in dirs <==> exists i :: 0 <= i < |segs| && d == JoinSlash(segs[..i])
  {
    hide JoinSlash;
    forall k | 0 <= k < |dirs| ensures exists i :: 0 <= i < |segs| && dirs[k] == JoinSlash(segs[..i]) {
      var i := if k < off then 0 else k - off;
      assert dirs[k] == JoinSlash(segs[..i]);
    }
    forall d | exists i :: 0 <= i < |segs| && d == JoinSlash(segs[..i]) ensures d in dirs {
      var i :| 0 <= i < |segs| && d == JoinSlash(segs[..i]);
      assert d == dirs[i + off];
    }
  }

  lemma {:induction false} ChainStart(parts: seq<string>)
    ensures Chain(parts, 0) == ""
  {
  }

  /** A well-named entry passes through exactly its proper ancestors and is recorded under its parent. */
  lemma {:induction false} PlaceBySegments(e: Entry, a: ZipArgs, k: nat)
    requires Kept(e, a.stripPrefix) && WellNamed(e, a.stripPrefix)
    ensures var p, segs := PlacementOf(e, a, k), Segs(e, a.stripPrefix);
            && p.Dir() == JoinSlash(segs[..|segs| - 1]) && p.name == segs[|segs| - 1]
            && forall d :: d in p.dirs <==> exists i :: 0 <= i < |segs| && d == JoinSlash(segs[..i])
  {
    hide Kept, Clean, Split, Join, Chain, InoAt, DataOf;
    var p, segs := PlacementOf(e, a, k), Segs(e, a.stripPrefix);
    var parts := Parts(e, a.stripPrefix);
    var off := |parts| - |segs|;
    assert p.dirs[0] == Chain(parts, 0) == "" == JoinSlash(segs[..0]) by { ChainStart(parts); }
    hide JoinSlash;
    forall i | 0 <= i < |segs| ensures p.dirs[i + off] == JoinSlash(segs[..i]) {
      if off == 1 { ChainAfterSlash(parts, i + 1); }
      ChainPlain(segs, i);
    }
    DirsAreAncestors(p.dirs, segs, off);
  }
}
