/**
 The choice of a package's location: the locations are sorted by depth in place, then the first one
 inside the starting directory's node_modules is taken, or else the first one.
 */
module PackageLocation {
  import opened Wrappers
  import opened Locations

  // ----- The sort -----

  /** The place of x behind everything that is not deeper. */
  function Insert(s: seq<Path>, x: Path): seq<Path> {
    if s == [] then [x]
    else if |s[|s| - 1]| <= |x| then s + [x]
    else Insert(s[..|s| - 1], x) + [s[|s| - 1]]
  }

  /** Array.sort by depth, which is stable. */
  function StableSort(s: seq<Path>): seq<Path> {
    if s == [] then [] else Insert(StableSort(s[..|s| - 1]), s[|s| - 1])
  }

  ghost predicate Sorted(s: seq<Path>) {
    forall i, j :: 0 <= i < j < |s| ==> |s[i]| <= |s[j]|
  }

  /** The elements of one depth, in order. */
  ghost function OfDepth(s: seq<Path>, d: nat): seq<Path> {
    if s == [] then []
    else OfDepth(s[..|s| - 1], d) + if |s[|s| - 1]| == d then [s[|s| - 1]] else []
  }

  lemma {:induction false} InsertKeeps(s: seq<Path>, x: Path)
    ensures multiset(Insert(s, x)) == multiset(s) + multiset{x}
    decreases |s|
  {
    if s != [] {
      var up, last := s[..|s| - 1], s[|s| - 1];
      assert s == up + [last];
      if |last| > |x| {
        InsertKeeps(up, x);
      }
    }
  }

  /** No element is deeper than d. */
  ghost predicate NotDeeper(s: seq<Path>, d: nat) {
    forall i :: 0 <= i < |s| ==> |s[i]| <= d
  }

  lemma {:induction false} SortedSnoc(s: seq<Path>, x: Path)
    requires Sorted(s) && NotDeeper(s, |x|)
    ensures Sorted(s + [x])
  {
  }

  lemma {:induction false} SortedPrefix(s: seq<Path>)
    requires Sorted(s) && s != []
    ensures Sorted(s[..|s| - 1]) && NotDeeper(s[..|s| - 1], |s[|s| - 1]|)
  {
  }

  lemma {:induction false} NotDeeperSnoc(s: seq<Path>, x: Path, d: nat)
    requires NotDeeper(s, d) && |x| <= d
    ensures NotDeeper(s + [x], d)
  {
  }

  lemma {:induction false} LastNotDeeper(s: seq<Path>, d: nat)
    requires NotDeeper(s, d) && s != []
    ensures NotDeeper(s[..|s| - 1], d) && |s[|s| - 1]| <= d
  {
  }

  lemma {:induction false} LargerBound(s: seq<Path>, d: nat, e: nat)
    requires NotDeeper(s, d) && d <= e
    ensures NotDeeper(s, e)
  {
  }

  lemma {:induction false} InsertSorts(s: seq<Path>, x: Path, d: nat)
    requires Sorted(s) && NotDeeper(s, d) && |x| <= d
    ensures Sorted(Insert(s, x)) && NotDeeper(Insert(s, x), d)
    decreases |s|
  {
    if s == [] {
      assert [x] == [] + [x];
      SortedSnoc([], x);
      NotDeeperSnoc([], x, d);
    } else {
      hide Sorted, NotDeeper;
      var up, last := s[..|s| - 1], s[|s| - 1];
      SortedPrefix(s);
      LastNotDeeper(s, d);
      if |last| <= |x| {
        assert s == up + [last];
        LargerBound(up, |last|, |x|);
        NotDeeperSnoc(up, last, |x|);
        SortedSnoc(s, x);
        NotDeeperSnoc(s, x, d);
      } else {
        InsertSorts(up, x, |last|);
        SortedSnoc(Insert(up, x), last);
        LargerBound(Insert(up, x), |last|, d);
        NotDeeperSnoc(Insert(up, x), last, d);
      }
    }
  }

  lemma {:induction false} Bounded(s: seq<Path>) returns (d: nat)
    ensures NotDeeper(s, d)
  {
    d := 0;
    if s != [] {
      var up, last := s[..|s| - 1], s[|s| - 1];
      d := Bounded(up);
      d := if d < |last| then |last| else d;
      assert forall i :: 0 <= i < |up| ==> s[i] == up[i];
    }
  }

  lemma {:induction false} InsertOfDepth(s: seq<Path>, x: Path, d: nat)
    requires Sorted(s)
    ensures OfDepth(Insert(s, x), d) == OfDepth(s, d) + if |x| == d then [x] else []
    decreases |s|
  {
    if s == [] {
      assert [x][..0] == [];
      assert OfDepth([x], d) == OfDepth([], d) + if |x| == d then [x] else [];
    } else if |s[|s| - 1]| <= |x| {
      assert (s + [x])[..|s|] == s;
    } else {
      var up, last := s[..|s| - 1], s[|s| - 1];
      InsertOfDepth(up, x, d);
      assert (Insert(up, x) + [last])[..|Insert(up, x)|] == Insert(up, x);
      if |x| == d {
        assert |last| != d;
      }
    }
  }

  lemma {:induction false} OfDepthSnoc(s: seq<Path>, x: Path, d: nat)
    ensures OfDepth(s + [x], d) == OfDepth(s, d) + if |x| == d then [x] else []
  {
    assert (s + [x])[..|s|] == s;
  }

  /** The sort orders by depth, keeps exactly the elements, and keeps the order within a depth. */
  lemma {:induction false} SortIsStable(s: seq<Path>, d: nat)
    ensures Sorted(StableSort(s)) && multiset(StableSort(s)) == multiset(s)
    ensures OfDepth(StableSort(s), d) == OfDepth(s, d)
  {
    if s != [] {
      var up, last := s[..|s| - 1], s[|s| - 1];
      assert s == up + [last];
      SortIsStable(up, d);
      hide Insert, Sorted, OfDepth;
      assert OfDepth(s, d) == OfDepth(up, d) + if |last| == d then [last] else [] by { OfDepthSnoc(up, last, d); }
      var b := Bounded(StableSort(up) + [last]);
      assert NotDeeper(StableSort(up), b) && |last| <= b by {
        assert (StableSort(up) + [last])[|StableSort(up)|] == last;
        assert forall i :: 0 <= i < |StableSort(up)| ==> (StableSort(up) + [last])[i] == StableSort(up)[i];
      }
      InsertSorts(StableSort(up), last, b);
      InsertKeeps(StableSort(up), last);
      InsertOfDepth(StableSort(up), last, d);
    }
  }

  /** Sorting a sorted array changes nothing. */
  lemma {:induction false} SortedStays(s: seq<Path>)
    requires Sorted(s)
    ensures StableSort(s) == s
  {
    if s != [] {
      var up := s[..|s| - 1];
      SortedStays(up);
      assert up == [] || |up[|up| - 1]| <= |s[|s| - 1]|;
      assert s == up + [s[|s| - 1]];
    }
  }

  lemma {:induction false} SortIsIdempotent(s: seq<Path>)
    ensures StableSort(StableSort(s)) == StableSort(s)
  {
    SortIsStable(s, 0);
    SortedStays(StableSort(s));
  }

  // ----- The choice -----

  /** ppath.contains as a condition: null and the empty string are false. */
  predicate InsideDir(dir: Path, location: Path) {
    match Contains(dir, location)
    case None => false
    case Some(rel) => rel != [""]
  }

  /** The location is the directory or below it; only the directory with a trailing separator is not. */
  lemma {:induction false} InsideIsPrefix(dir: Path, location: Path)
    ensures InsideDir(dir, location) <==> dir <= location && location != dir + [""]
  {
    if dir <= location {
      assert location == dir + location[|dir|..];
    }
  }

  /** Any location, or only those inside dir. */
  predicate Eligible(any: bool, dir: Path, location: Path) {
    any || InsideDir(dir, location)
  }

  function FirstEligible(s: seq<Path>, any: bool, dir: Path): Option<Path> {
    if s == [] then None
    else if Eligible(any, dir, s[0]) then Some(s[0])
    else FirstEligible(s[1..], any, dir)
  }

  /** The first location inside dir, or else the first one. */
  function Choice(sorted: seq<Path>, dir: Path): Option<Path> {
    match FirstEligible(sorted, false, dir)
    case Some(x) => Some(x)
    case None => FirstEligible(sorted, true, dir)
  }

  /** Location i is the first eligible one. */
  ghost predicate FirstAt(s: seq<Path>, any: bool, dir: Path, i: int) {
    0 <= i < |s| && Eligible(any, dir, s[i]) && forall j :: 0 <= j < i ==> !Eligible(any, dir, s[j])
  }

  lemma {:induction false} FirstEligibleIs(s: seq<Path>, any: bool, dir: Path)
    ensures FirstEligible(s, any, dir).None? <==> forall j :: 0 <= j < |s| ==> !Eligible(any, dir, s[j])
    ensures FirstEligible(s, any, dir).Some? ==>
              exists i :: FirstAt(s, any, dir, i) && s[i] == FirstEligible(s, any, dir).value
    ensures forall i :: FirstAt(s, any, dir, i) ==> FirstEligible(s, any, dir) == Some(s[i])
    decreases |s|
  {
    hide Eligible;
    if s != [] {
      var rest := s[1..];
      FirstEligibleIs(rest, any, dir);
      assert forall j :: 1 <= j < |s| ==> s[j] == rest[j - 1];
      if Eligible(any, dir, s[0]) {
        assert FirstAt(s, any, dir, 0);
      } else {
        if i :| FirstAt(rest, any, dir, i) { assert FirstAt(s, any, dir, i + 1); }
        forall i | FirstAt(s, any, dir, i) ensures FirstAt(rest, any, dir, i - 1) { }
      }
    }
  }

  // ----- What the choice means -----

  /** Location i is eligible, no eligible one is shallower, and none of its depth is earlier. */
  ghost predicate Best(locations: seq<Path>, any: bool, dir: Path, i: int) {
    && 0 <= i < |locations| && Eligible(any, dir, locations[i])
    && forall j :: 0 <= j < |locations| && Eligible(any, dir, locations[j]) ==>
         |locations[i]| < |locations[j]| || (|locations[i]| == |locations[j]| && i <= j)
  }

  /** The first eligible location of one depth. */
  ghost predicate FirstOfDepth(s: seq<Path>, any: bool, dir: Path, d: nat, i: int) {
    && 0 <= i < |s| && Eligible(any, dir, s[i]) && |s[i]| == d
    && forall j :: 0 <= j < i && |s[j]| == d ==> !Eligible(any, dir, s[j])
  }

  lemma {:induction false} FirstEligibleSnoc(s: seq<Path>, x: Path, any: bool, dir: Path)
    ensures FirstEligible(s + [x], any, dir)
            == if FirstEligible(s, any, dir).Some? then FirstEligible(s, any, dir)
               else if Eligible(any, dir, x) then Some(x) else None
    decreases |s|
  {
    hide Eligible;
    if s == [] {
      assert s + [x] == [x] && [x][1..] == [];
    } else {
      assert (s + [x])[0] == s[0] && (s + [x])[1..] == s[1..] + [x];
      FirstEligibleSnoc(s[1..], x, any, dir);
    }
  }

  lemma {:induction false} NoneEligible(any: bool, dir: Path)
    ensures FirstEligible([], any, dir) == None
  {
  }

  lemma {:induction false} FirstFrom(s: seq<Path>, any: bool, dir: Path, d: nat, j: nat) returns (i: nat)
    requires j < |s| && |s[j]| == d && Eligible(any, dir, s[j])
    ensures i <= j && FirstOfDepth(s, any, dir, d, i)
    decreases j
  {
    hide Eligible;
    if k: nat :| k < j && |s[k]| == d && Eligible(any, dir, s[k]) {
      i := FirstFrom(s, any, dir, d, k);
    } else {
      i := j;
    }
  }

  lemma {:induction false} NoFirstMeansNone(s: seq<Path>, any: bool, dir: Path, d: nat)
    requires forall i :: !FirstOfDepth(s, any, dir, d, i)
    ensures forall j :: 0 <= j < |s| && |s[j]| == d ==> !Eligible(any, dir, s[j])
  {
    hide Eligible;
    if j: nat :| j < |s| && |s[j]| == d && Eligible(any, dir, s[j]) {
      var i := FirstFrom(s, any, dir, d, j);
      assert false;
    }
  }

  lemma {:induction false} OfDepthFirst(s: seq<Path>, any: bool, dir: Path, d: nat)
    ensures FirstEligible(OfDepth(s, d), any, dir).Some? ==>
              exists i :: FirstOfDepth(s, any, dir, d, i) && s[i] == FirstEligible(OfDepth(s, d), any, dir).value
    ensures forall i :: FirstOfDepth(s, any, dir, d, i) ==> FirstEligible(OfDepth(s, d), any, dir) == Some(s[i])
    decreases |s|
  {
    hide Eligible, FirstEligible;
    if s == [] {
      NoneEligible(any, dir);
    } else {
      var up, last := s[..|s| - 1], s[|s| - 1];
      OfDepthFirst(up, any, dir, d);
      FirstEligibleSnoc(OfDepth(up, d), last, any, dir);
      assert OfDepth(s, d) == if |last| == d then OfDepth(up, d) + [last] else OfDepth(up, d);
      assert forall j :: 0 <= j < |up| ==> s[j] == up[j];
      var found := FirstEligible(OfDepth(up, d), any, dir);
      if found.Some? {
        var i :| FirstOfDepth(up, any, dir, d, i) && up[i] == found.value;
        assert FirstOfDepth(s, any, dir, d, i);
      } else if |last| == d && Eligible(any, dir, last) {
        NoFirstMeansNone(up, any, dir, d);
        assert FirstOfDepth(s, any, dir, d, |up|);
      }
      forall i | FirstOfDepth(s, any, dir, d, i) && i < |up| ensures FirstOfDepth(up, any, dir, d, i) { }
    }
  }

  lemma {:induction false} SameElements(s: seq<Path>, t: seq<Path>)
    requires multiset(s) == multiset(t)
    ensures forall j :: 0 <= j < |s| ==> exists x :: 0 <= x < |t| && t[x] == s[j]
    ensures forall x :: 0 <= x < |t| ==> exists j :: 0 <= j < |s| && s[j] == t[x]
  {
    forall j | 0 <= j < |s| ensures exists x :: 0 <= x < |t| && t[x] == s[j] {
      assert s[j] in multiset(s);
      assert s[j] in t;
    }
    forall x | 0 <= x < |t| ensures exists j :: 0 <= j < |s| && s[j] == t[x] {
      assert t[x] in multiset(t);
      assert t[x] in s;
    }
  }

  lemma {:induction false} NoneShallower(s: seq<Path>, any: bool, dir: Path, k: nat, x: nat)
    requires Sorted(s) && FirstAt(s, any, dir, k) && x < |s| && Eligible(any, dir, s[x])
    ensures |s[k]| <= |s[x]|
  {
    hide Eligible;
    assert k <= x;
  }

  lemma {:induction false} FirstIsBest(locations: seq<Path>, s: seq<Path>, any: bool, dir: Path, k: nat, i: nat)
    requires multiset(locations) == multiset(s) && Sorted(s) && FirstAt(s, any, dir, k)
    requires FirstOfDepth(locations, any, dir, |s[k]|, i) && locations[i] == s[k]
    ensures Best(locations, any, dir, i)
  {
    hide Eligible, Sorted;
    SameElements(locations, s);
    forall j | 0 <= j < |locations| && Eligible(any, dir, locations[j])
      ensures |s[k]| < |locations[j]| || (|s[k]| == |locations[j]| && i <= j)
    {
      var x :| 0 <= x < |s| && s[x] == locations[j];
      NoneShallower(s, any, dir, k, x);
    }
  }

  lemma {:induction false} FirstSortedDepth(locations: seq<Path>, any: bool, dir: Path, k: nat) returns (i: nat)
    requires FirstAt(StableSort(locations), any, dir, k)
    ensures var s := StableSort(locations);
            FirstOfDepth(locations, any, dir, |s[k]|, i) && locations[i] == s[k]
  {
    hide Eligible, StableSort, FirstEligible, OfDepth, Sorted;
    var s := StableSort(locations);
    var d := |s[k]|;
    SortIsStable(locations, d);
    assert FirstOfDepth(s, any, dir, d, k);
    OfDepthFirst(s, any, dir, d);
    OfDepthFirst(locations, any, dir, d);
    i :| FirstOfDepth(locations, any, dir, d, i) && locations[i] == s[k];
  }

  /** The first eligible location of the sorted array is the best one of the original array. */
  lemma {:induction false} FirstSortedIsBest(locations: seq<Path>, any: bool, dir: Path)
    ensures var found := FirstEligible(StableSort(locations), any, dir);
            && (found.None? <==> forall j :: 0 <= j < |locations| ==> !Eligible(any, dir, locations[j]))
            && (found.Some? ==> exists i :: Best(locations, any, dir, i) && locations[i] == found.value)
  {
    hide Eligible, StableSort, FirstEligible, Sorted;
    var s := StableSort(locations);
    SortIsStable(locations, 0);
    FirstEligibleIs(s, any, dir);
    if FirstEligible(s, any, dir).Some? {
      var k :| FirstAt(s, any, dir, k) && s[k] == FirstEligible(s, any, dir).value;
      var i := FirstSortedDepth(locations, any, dir, k);
      FirstIsBest(locations, s, any, dir, k, i);
    } else {
      SameElements(locations, s);
    }
  }

  /** The location inside dir, other than dir with a trailing separator. */
  predicate Within(dir: Path, location: Path) {
    dir <= location && location != dir + [""]
  }

  /**
   The location wanted for a package with these locations: a shallowest one within the directory, if
   there is one there, and a shallowest one overall otherwise, the earliest in the array if several
   are equally deep; none only if the package has no location.
   */
  ghost predicate Wanted(locations: seq<Path>, dir: Path, found: Option<Path>) {
    var inside := exists j :: 0 <= j < |locations| && Within(dir, locations[j]);
    && (found.None? <==> locations == [])
    && (found.Some? ==>
          exists i :: 0 <= i < |locations| && locations[i] == found.value && (inside ==> Within(dir, locations[i]))
            && forall j :: 0 <= j < |locations| && (inside ==> Within(dir, locations[j])) ==>
                 |locations[i]| < |locations[j]| || (|locations[i]| == |locations[j]| && i <= j))
  }

  lemma {:induction false} EligibleIs(any: bool, dir: Path, location: Path)
    ensures Eligible(any, dir, location) <==> (!any ==> Within(dir, location))
  {
    hide InsideDir;
    InsideIsPrefix(dir, location);
  }

  lemma {:induction false} ChoiceIsShallowest(locations: seq<Path>, dir: Path)
    ensures Wanted(locations, dir, Choice(StableSort(locations), dir))
  {
    hide Eligible, Within, StableSort, FirstEligible;
    FirstSortedIsBest(locations, false, dir);
    FirstSortedIsBest(locations, true, dir);
    forall any, j | 0 <= j < |locations|
      ensures Eligible(any, dir, locations[j]) <==> (!any ==> Within(dir, locations[j]))
    {
      EligibleIs(any, dir, locations[j]);
    }
    var any := FirstEligible(StableSort(locations), false, dir).None?;
    if locations != [] {
      assert Eligible(true, dir, locations[0]);
      var found := FirstEligible(StableSort(locations), any, dir);
      var i :| Best(locations, any, dir, i) && locations[i] == found.value;
      assert found == Choice(StableSort(locations), dir);
    } else {
      assert FirstEligible(StableSort(locations), true, dir).None?;
    }
  }

  /** The entry of one package in the cached install state; calls share and reorder its array. */
  class LocatorInfo {
    var locations: seq<Path>

    constructor (locations: seq<Path>)
      ensures this.locations == locations
    {
      this.locations := locations;
    }

    method FindPackageLocation(startingCwd: Path) returns (found: Option<Path>)
      modifies this
      ensures locations == StableSort(old(locations))
      ensures found == Choice(locations, startingCwd + [NODE_MODULES])
      ensures Wanted(old(locations), startingCwd + [NODE_MODULES], found)
    {
      hide InsideDir, StableSort, Wanted;
      ChoiceIsShallowest(locations, startingCwd + [NODE_MODULES]);
      locations := StableSort(locations);
      var modules := startingCwd + [NODE_MODULES];
      FirstEligibleIs(locations, false, modules);
      for i := 0 to |locations|
        invariant locations == StableSort(old(locations))
        invariant forall k :: 0 <= k < i ==> !InsideDir(modules, locations[k])
      {
        if InsideDir(modules, locations[i]) {
          assert FirstAt(locations, false, modules, i);
          return Some(locations[i]);
        }
      }
      found := if locations == [] then None else Some(locations[0]);
    }
  }

  /** The cached array after calls from the given starting directories. */
  function After(locations: seq<Path>, calls: seq<Path>): seq<Path> {
    if calls == [] then locations else StableSort(After(locations, calls[..|calls| - 1]))
  }

  /** Repeated calls keep giving the same answer, whatever calls happened before or in between. */
  lemma {:induction false} CallsDoNotInterfere(locations: seq<Path>, calls: seq<Path>, dir: Path)
    ensures Choice(StableSort(After(locations, calls)), dir) == Choice(StableSort(locations), dir)
  {
    hide Choice, StableSort;
    if calls != [] {
      CallsDoNotInterfere(locations, calls[..|calls| - 1], dir);
      SortIsIdempotent(After(locations, calls[..|calls| - 1]));
    }
  }
}
