/**
 A two-level index filled from a list of placements, as the archive index is: every placement
 makes sure its directories exist and then writes one value under the last of them.
 */
module NestedIndex {
  /** One write: the directory keys passed on the way, and the name written under the last one. */
  datatype Placed<V> = Placed(dirs: seq<string>, name: string, value: V) {
    predicate Valid() { |dirs| >= 1 }

    function Dir(): string
      requires Valid()
    {
      dirs[|dirs| - 1]
    }
  }

  type Nested<V> = map<string, map<string, V>>

  ghost predicate AllValid<V>(ps: seq<Placed<V>>) {
    forall k :: 0 <= k < |ps| ==> ps[k].Valid()
  }

  function EnsureDir<V>(index: Nested<V>, d: string): Nested<V> {
    if d in index then index else index[d := map[]]
  }

  /** The first i directory keys exist. */
  function EnsureDirs<V>(index: Nested<V>, dirs: seq<string>, i: nat): Nested<V>
    requires i <= |dirs|
  {
    if i == 0 then index else EnsureDir(EnsureDirs(index, dirs, i - 1), dirs[i - 1])
  }

  lemma {:induction false} EnsureDirsKeys<V>(index: Nested<V>, dirs: seq<string>, i: nat)
    requires i <= |dirs|
    ensures forall d :: d in EnsureDirs(index, dirs, i) <==> d in index || d in dirs[..i]
    ensures forall d :: d in EnsureDirs(index, dirs, i) ==>
              EnsureDirs(index, dirs, i)[d] == if d in index then index[d] else map[]
  {
    if i > 0 {
      EnsureDirsKeys(index, dirs, i - 1);
      assert dirs[..i] == dirs[..i - 1] + [dirs[i - 1]];
    }
  }

  function Put<V>(index: Nested<V>, p: Placed<V>): Nested<V>
    requires p.Valid()
  {
    EnsureDirsKeys(index, p.dirs, |p.dirs|);
    var dirs := EnsureDirs(index, p.dirs, |p.dirs|);
    dirs[p.Dir() := dirs[p.Dir()][p.name := p.value]]
  }

  /** The index after all placements, in list order. */
  ghost function Fold<V>(ps: seq<Placed<V>>): Nested<V>
    requires AllValid(ps)
  {
    if ps == [] then map[] else Put(Fold(ps[..|ps| - 1]), ps[|ps| - 1])
  }

  ghost predicate Lists<V>(index: Nested<V>, d: string, n: string) {
    d in index && n in index[d]
  }

  ghost predicate WrittenAt<V>(p: Placed<V>, d: string, n: string) {
    p.Valid() && p.Dir() == d && p.name == n
  }

  /** Placement j is the last one written under (d, n). */
  ghost predicate LastPlaced<V>(ps: seq<Placed<V>>, d: string, n: string, j: int) {
    0 <= j < |ps| && WrittenAt(ps[j], d, n)
    && forall k :: j < k < |ps| ==> !WrittenAt(ps[k], d, n)
  }

  /** A directory key exists exactly when some placement passes through it. */
  lemma {:induction false} FoldKeys<V>(ps: seq<Placed<V>>, d: string)
    requires AllValid(ps)
    ensures d in Fold(ps) <==> exists j :: 0 <= j < |ps| && d in ps[j].dirs
  {
    if ps != [] {
      var m := |ps| - 1;
      FoldKeys(ps[..m], d);
      assert forall j :: 0 <= j < m ==> ps[..m][j] == ps[j];
      EnsureDirsKeys(Fold(ps[..m]), ps[m].dirs, |ps[m].dirs|);
      assert ps[m].dirs[..|ps[m].dirs|] == ps[m].dirs;
      assert d in Fold(ps) <==> d in Fold(ps[..m]) || d in ps[m].dirs;
      if j :| 0 <= j < |ps| && d in ps[j].dirs {
        assert j < m ==> d in ps[..m][j].dirs;
      }
    }
  }

  /** The last write wins. */
  lemma {:induction false} FoldValue<V>(ps: seq<Placed<V>>, d: string, n: string, j: int)
    requires AllValid(ps) && LastPlaced(ps, d, n, j)
    ensures Lists(Fold(ps), d, n) && Fold(ps)[d][n] == ps[j].value
  {
    var m := |ps| - 1;
    EnsureDirsKeys(Fold(ps[..m]), ps[m].dirs, |ps[m].dirs|);
    assert ps[m].dirs[..|ps[m].dirs|] == ps[m].dirs;
    if j < m {
      assert forall k :: 0 <= k < m ==> ps[..m][k] == ps[k];
      FoldValue(ps[..m], d, n, j);
      assert !WrittenAt(ps[m], d, n);
    }
  }

  /** Nothing else is listed. */
  lemma {:induction false} FoldListed<V>(ps: seq<Placed<V>>, d: string, n: string) returns (j: nat)
    requires AllValid(ps) && Lists(Fold(ps), d, n)
    ensures LastPlaced(ps, d, n, j)
  {
    var m := |ps| - 1;
    if WrittenAt(ps[m], d, n) {
      j := m;
    } else {
      EnsureDirsKeys(Fold(ps[..m]), ps[m].dirs, |ps[m].dirs|);
      assert Lists(Fold(ps[..m]), d, n);
      j := FoldListed(ps[..m], d, n);
      assert forall k :: 0 <= k < m ==> ps[..m][k] == ps[k];
    }
  }

  lemma {:induction false} PickLast<V>(ps: seq<Placed<V>>, d: string, n: string, i: nat) returns (j: nat)
    requires i < |ps| && WrittenAt(ps[i], d, n)
    ensures i <= j && LastPlaced(ps, d, n, j)
    decreases |ps| - i
  {
    if k :| i < k < |ps| && WrittenAt(ps[k], d, n) {
      j := PickLast(ps, d, n, k);
    } else {
      j := i;
    }
  }
}
