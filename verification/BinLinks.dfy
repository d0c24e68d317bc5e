/**
 createBinSymlinkMap: a recursion over the location tree that both returns the links its caller
 should place and adds to a shared table of links per directory.
 */
module BinLinks {
  import opened Wrappers
  import opened Locations
  import opened FuseTypes
  import opened FuseTree

  type Bins = map<string, Path>

  /** The finished tree, the bin scripts of every package (name to path), and the project root. */
  datatype Env = Env(f: Forest, scripts: map<string, map<string, seq<string>>>, skip: Path)

  // ----- Locations and scripts -----

  /** Where a node is on disk: names below the location root are joined one by one. */
  function LocationOf(a: Addr): Path {
    if a.segs == [] then a.root else NonEmpty(a.root + a.segs)
  }

  /** ppath.join of a directory and one name. */
  function JoinName(location: Path, name: string): Path {
    NonEmpty(location + [name])
  }

  lemma {:induction false} ChildLocation(a: Addr, s: string)
    ensures LocationOf(a.Child(s)) == JoinName(LocationOf(a), s)
  {
    assert a.root + a.Child(s).segs == a.root + a.segs + [s];
    assert a.segs == [] ==> a.root + a.segs == a.root;
    NonEmptySnoc(a.root + a.segs, s);
    NonEmptySnoc(NonEmpty(a.root + a.segs), s);
    NonEmptyClean(a.root + a.segs);
    NonEmptyClean(NonEmpty(a.root + a.segs));
  }

  /** Normalisation of ppath.join, after the segments in `done`. */
  function ResolveFrom(done: Path, segs: seq<string>): Path
    decreases |segs|
  {
    if segs == [] then done
    else
      var s := segs[0];
      ResolveFrom(if s == "" || s == "." then done
                  else if s == ".." then if done == [] then done else done[..|done| - 1]
                  else done + [s], segs[1..])
  }

  function JoinScript(location: Path, script: seq<string>): Path {
    ResolveFrom(NonEmpty(location), script)
  }

  /** A relative path normalised on its own: how many levels it climbs, and what follows. */
  datatype Relative = Relative(ups: nat, rest: Path)

  function Normal(script: seq<string>): Relative {
    if script == [] then Relative(0, [])
    else
      var r, s := Normal(script[..|script| - 1]), script[|script| - 1];
      if s == "" || s == "." then r
      else if s == ".." then
        if r.rest == [] then Relative(r.ups + 1, []) else Relative(r.ups, r.rest[..|r.rest| - 1])
      else Relative(r.ups, r.rest + [s])
  }

  /** The first directories of a path that climbing k levels leaves. */
  function Climbed(done: Path, k: nat): Path {
    if k <= |done| then done[..|done| - k] else []
  }

  lemma {:induction false} ResolveSnoc(done: Path, script: seq<string>, s: string)
    ensures ResolveFrom(done, script + [s]) == ResolveFrom(ResolveFrom(done, script), [s])
    decreases |script|
  {
    if script == [] {
      assert script + [s] == [s];
    } else {
      assert (script + [s])[1..] == script[1..] + [s];
      var t := script[0];
      ResolveSnoc(if t == "" || t == "." then done
                  else if t == ".." then if done == [] then done else done[..|done| - 1]
                  else done + [t], script[1..], s);
    }
  }

  lemma {:induction false} ResolveOne(done: Path, r: Relative, s: string)
    ensures ResolveFrom(Climbed(done, r.ups) + r.rest, [s])
            == (if s == "" || s == "." then Climbed(done, r.ups) + r.rest
                else if s == ".." then
                  if r.rest == [] then Climbed(done, r.ups + 1) else Climbed(done, r.ups) + r.rest[..|r.rest| - 1]
                else Climbed(done, r.ups) + (r.rest + [s]))
  {
    var at := Climbed(done, r.ups) + r.rest;
    assert [s][1..] == [];
    if s == ".." && r.rest != [] {
      assert at[..|at| - 1] == Climbed(done, r.ups) + r.rest[..|r.rest| - 1];
    } else if s == ".." {
      assert at == Climbed(done, r.ups);
    } else if s != "" && s != "." {
      assert at + [s] == Climbed(done, r.ups) + (r.rest + [s]);
    }
  }

  lemma {:induction false} ResolveNothing(done: Path)
    ensures ResolveFrom(done, []) == done
  {
  }

  lemma {:induction false} ResolveIsNormal(done: Path, script: seq<string>)
    ensures ResolveFrom(done, script) == Climbed(done, Normal(script).ups) + Normal(script).rest
    decreases |script|
  {
    hide ResolveFrom;
    if script == [] {
      assert Climbed(done, 0) + [] == done && ResolveFrom(done, []) == done by { ResolveNothing(done); }
    } else {
      hide Climbed;
      var up, s := script[..|script| - 1], script[|script| - 1];
      assert script == up + [s];
      ResolveSnoc(done, up, s);
      ResolveIsNormal(done, up);
      ResolveOne(done, Normal(up), s);
      assert Climbed(done, Normal(up).ups + 1) + [] == Climbed(done, Normal(up).ups + 1);
    }
  }

  lemma {:induction false} PrefixAfter(x: Path, y: Path, z: Path)
    ensures x + y <= x + z <==> y <= z
  {
    if x + y <= x + z {
      assert y == (x + y)[|x|..] && z[..|y|] == (x + z)[|x|..|x| + |y|];
    }
  }

  lemma {:induction false} ResolveConcat(done: Path, x: seq<string>, y: seq<string>)
    ensures ResolveFrom(done, x + y) == ResolveFrom(ResolveFrom(done, x), y)
    decreases |x|
  {
    if x == [] {
      assert x + y == y;
    } else {
      var t := x[0];
      assert (x + y)[1..] == x[1..] + y;
      ResolveConcat(if t == "" || t == "." then done
                    else if t == ".." then if done == [] then done else done[..|done| - 1]
                    else done + [t], x[1..], y);
    }
  }

  ghost predicate PlainNames(script: seq<string>) {
    forall s :: s in script ==> s != "" && s != "." && s != ".."
  }

  lemma {:induction false} ResolvePlain(done: Path, script: seq<string>)
    requires PlainNames(script)
    ensures ResolveFrom(done, script) == done + script
    decreases |script|
  {
    if script == [] {
      assert done + script == done;
    } else {
      assert script[0] in script && forall s :: s in script[1..] ==> s in script;
      ResolvePlain(done + [script[0]], script[1..]);
      assert done + [script[0]] + script[1..] == done + script;
    }
  }

  lemma {:induction false} ResolveMiddle(done: Path, x: seq<string>, t: seq<string>, y: seq<string>)
    requires CleanPath(done)
    ensures JoinScript(done, x + t + y) == ResolveFrom(ResolveFrom(ResolveFrom(done, x), t), y)
    ensures JoinScript(done, x + y) == ResolveFrom(ResolveFrom(done, x), y)
  {
    hide ResolveFrom, NonEmpty;
    NonEmptyClean(done);
    ResolveConcat(done, x, y);
    ResolveConcat(done, x, t);
    ResolveConcat(done, x + t, y);
  }

  lemma {:induction false} ResolveNoise(at: Path, name: string)
    requires PlainNames([name])
    ensures ResolveFrom(at, [""]) == at && ResolveFrom(at, ["."]) == at && ResolveFrom(at, [name, ".."]) == at
  {
    assert name in [name];
    assert [""][1..] == [] && ["."][1..] == [];
    assert [name, ".."][1..] == [".."] && [".."][1..] == [] && (at + [name])[..|at + [name]| - 1] == at;
    assert ResolveFrom(at + [name], [".."]) == ResolveFrom(at, []);
  }

  lemma {:induction false} ResolveUp(done: Path, y: seq<string>)
    ensures ResolveFrom(done, [".."] + y) == ResolveFrom(if done == [] then done else done[..|done| - 1], y)
  {
    assert ([".."] + y)[1..] == y;
  }

  /**
   Where a script is, in full: plain names follow the package's location, empty names and "." vanish,
   ".." takes back the name before it or climbs one level, and nothing is above the top.
   */
  lemma {:induction false} ScriptResolves(location: Path, x: seq<string>, y: seq<string>, name: string)
    requires CleanPath(location) && PlainNames([name])
    ensures PlainNames(y) ==> JoinScript(location, y) == location + y
    ensures JoinScript(location, x + [""] + y) == JoinScript(location, x + y)
    ensures JoinScript(location, x + ["."] + y) == JoinScript(location, x + y)
    ensures JoinScript(location, x + [name, ".."] + y) == JoinScript(location, x + y)
    ensures location != [] ==> JoinScript(location, [".."] + y) == JoinScript(location[..|location| - 1], y)
    ensures location == [] ==> JoinScript(location, [".."] + y) == JoinScript(location, y)
  {
    hide NonEmpty, ResolveFrom, PlainNames;
    NonEmptyClean(location);
    if location != [] { NonEmptyClean(location[..|location| - 1]); }
    if PlainNames(y) { ResolvePlain(location, y); }
    ResolveMiddle(location, x, [""], y);
    ResolveMiddle(location, x, ["."], y);
    ResolveMiddle(location, x, [name, ".."], y);
    ResolveNoise(ResolveFrom(location, x), name);
    ResolveUp(location, y);
  }

  /**
   A link stays below its package's location exactly when the script path, normalised on its own,
   comes back down by the very names it climbed over; a path that does not climb always does.
   */
  lemma {:induction false} ScriptStaysInside(done: Path, script: seq<string>)
    ensures done <= ResolveFrom(done, script)
            <==> done[|Climbed(done, Normal(script).ups)|..] <= Normal(script).rest
    ensures Normal(script).ups == 0 ==> done <= ResolveFrom(done, script)
  {
    ResolveIsNormal(done, script);
    var kept, rest := Climbed(done, Normal(script).ups), Normal(script).rest;
    assert done == kept + done[|kept|..];
    PrefixAfter(kept, done[|kept|..], rest);
  }

  lemma {:induction false} NormalBeside(name: string)
    requires name != "" && name != "." && name != ".."
    ensures Normal(["..", name]) == Relative(1, [name])
  {
    assert ["..", name][..1] == [".."] && [".."][..0] == [];
    assert Normal([".."]) == Relative(1, []);
    assert [] + [name] == [name];
  }

  /** For instance a script beside the package is outside it. */
  lemma {:induction false} ScriptBesideEscapes(up: Path, last: string, name: string)
    requires CleanPath(up + [last, name]) && name != "." && name != ".." && name != last
    ensures JoinScript(up + [last], ["..", name]) == up + [name]
    ensures !(up + [last] <= JoinScript(up + [last], ["..", name]))
  {
    var done := up + [last];
    assert CleanPath(done) && name != "" by {
      assert (up + [last, name])[|up| + 1] == name;
      assert forall s :: s in done ==> s in up + [last, name];
    }
    NonEmptyClean(done);
    hide ResolveFrom, NonEmpty, CleanPath;
    assert Climbed(done, 1) == up by { assert done[..|done| - 1] == up; }
    ResolveIsNormal(done, ["..", name]);
    NormalBeside(name);
    assert done[|up|] == last && (up + [name])[|up|] == name;
  }

  // ----- What one node exports and what it adds to the table -----

  predicate Located(env: Env, a: Addr)
    requires a in env.f.nodes
  {
    var locator := env.f.nodes[a].locator;
    locator.Some? && locator.value != "" && Contains(env.skip, LocationOf(a)).Some?
  }

  /** The tree is well formed and the script table knows every located package. */
  ghost predicate Ready(env: Env) {
    WellFormed(env.f)
    && forall a :: a in env.f.nodes && Located(env, a) ==> env.f.nodes[a].locator.value in env.scripts
  }

  function Own(env: Env, a: Addr): Bins
    requires Ready(env) && a in env.f.nodes && Located(env, a)
  {
    var scripts := env.scripts[env.f.nodes[a].locator.value];
    map n | n in scripts :: JoinScript(LocationOf(a), scripts[n])
  }

  /** The links a node hands to its caller: its own if it is a package, else its children's. */
  function Exported(env: Env, a: Addr): Bins
    requires Ready(env) && a in env.f.nodes
    decreases Depth(env.f) - |a.segs|, 1, 0
  {
    if Located(env, a) then Own(env, a) else FromKids(env, a, |env.f.nodes[a].order|)
  }

  /** The links of the first i children, in insertion order, later names winning. */
  function FromKids(env: Env, a: Addr, i: nat): Bins
    requires Ready(env) && a in env.f.nodes && i <= |env.f.nodes[a].order|
    decreases Depth(env.f) - |a.segs|, 0, i
  {
    if i == 0 then map[]
    else
      assert a.Child(env.f.nodes[a].order[i - 1]) in env.f.nodes;
      FromKids(env, a, i - 1) + Exported(env, a.Child(env.f.nodes[a].order[i - 1]))
  }

  function Get(table: BinMap, key: Path): Bins {
    if key in table then table[key] else map[]
  }

  /** binSymlinks.set with a merge, skipped when there is nothing to add. */
  function Add(table: BinMap, key: Path, links: Bins): BinMap {
    if links == map[] then table else table[key := Get(table, key) + links]
  }

  /** The table after the recursion on a node. */
  function Table(env: Env, a: Addr, table: BinMap): BinMap
    requires Ready(env) && a in env.f.nodes
    decreases Depth(env.f) - |a.segs|, 1, 0
  {
    TableKids(env, a, |env.f.nodes[a].order|, table)
  }

  function TableKids(env: Env, a: Addr, i: nat, table: BinMap): BinMap
    requires Ready(env) && a in env.f.nodes && i <= |env.f.nodes[a].order|
    decreases Depth(env.f) - |a.segs|, 0, i
  {
    if i == 0 then table
    else
      assert a.Child(env.f.nodes[a].order[i - 1]) in env.f.nodes;
      var c := a.Child(env.f.nodes[a].order[i - 1]);
      var next := Table(env, c, TableKids(env, a, i - 1, table));
      if Located(env, a) then Add(next, LocationOf(a), Exported(env, c)) else next
  }

  /** The table after the given location roots. */
  function RootsTable(env: Env, roots: seq<Path>): BinMap
    requires Ready(env) && forall r :: r in roots ==> IsRoot(env.f, r)
  {
    if roots == [] then map[]
    else
      var r := roots[|roots| - 1];
      assert IsRoot(env.f, r);
      var before := RootsTable(env, roots[..|roots| - 1]);
      Add(Table(env, Addr(r, []), before), r, Exported(env, Addr(r, [])))
  }

  // ----- The recursion as the plugin runs it -----

  lemma {:induction false} ChildReady(env: Env, a: Addr, s: string)
    requires Ready(env) && a in env.f.nodes && s in env.f.nodes[a].order
    ensures a.Child(s) in env.f.nodes && |a.segs| < |a.Child(s).segs| <= Depth(env.f)
    ensures LocationOf(a.Child(s)) == JoinName(LocationOf(a), s)
  {
    hide Located, LocationOf, Distinct;
    ChildLocation(a, s);
  }

  class BinLinker {
    const env: Env
    var binSymlinks: BinMap

    constructor (env: Env)
      ensures this.env == env && binSymlinks == map[]
    {
      this.env, binSymlinks := env, map[];
    }

    /** The loop over one package's scripts. */
    method OwnLinks(a: Addr) returns (symlinks: Bins)
      requires Ready(env) && a in env.f.nodes && Located(env, a)
      ensures symlinks == Own(env, a)
      ensures var scripts := env.scripts[env.f.nodes[a].locator.value];
              symlinks.Keys == scripts.Keys
              && forall n :: n in scripts ==> symlinks[n] == JoinScript(LocationOf(a), scripts[n])
    {
      hide WellFormed, JoinScript, LocationOf;
      var binScripts := env.scripts[env.f.nodes[a].locator.value];
      symlinks := map[];
      var todo := binScripts.Keys;
      while todo != {}
        invariant todo <= binScripts.Keys
        invariant symlinks == map n | n in binScripts && n !in todo :: JoinScript(LocationOf(a), binScripts[n])
        decreases |todo|
      {
        var filename :| filename in todo;
        symlinks := symlinks[filename := JoinScript(LocationOf(a), binScripts[filename])];
        todo := todo - {filename};
      }
    }

    method GetBinSymlinks(location: Path, a: Addr) returns (symlinks: Bins)
      requires Ready(env) && a in env.f.nodes && location == LocationOf(a)
      modifies this
      ensures symlinks == Exported(env, a)
      ensures binSymlinks == Table(env, a, old(binSymlinks))
      decreases Depth(env.f) - |a.segs|
    {
      hide Own, Ready, Located, JoinName, LocationOf;
      var node := env.f.nodes[a];
      if Located(env, a) {
        symlinks := OwnLinks(a);
        for i := 0 to |node.order|
          invariant binSymlinks == TableKids(env, a, i, old(binSymlinks))
        {
          ChildReady(env, a, node.order[i]);
          var childSymlinks := GetBinSymlinks(JoinName(location, node.order[i]), a.Child(node.order[i]));
          if childSymlinks != map[] {
            binSymlinks := binSymlinks[location := Get(binSymlinks, location) + childSymlinks];
          }
        }
      } else {
        symlinks := map[];
        for i := 0 to |node.order|
          invariant symlinks == FromKids(env, a, i)
          invariant binSymlinks == TableKids(env, a, i, old(binSymlinks))
        {
          ChildReady(env, a, node.order[i]);
          var childSymlinks := GetBinSymlinks(JoinName(location, node.order[i]), a.Child(node.order[i]));
          symlinks := symlinks + childSymlinks;
        }
      }
    }

    /** createBinSymlinkMap's loop over the location roots. */
    method CreateBinSymlinkMap()
      requires Ready(env) && binSymlinks == map[]
      modifies this
      ensures binSymlinks == RootsTable(env, env.f.order)
    {
      RootsListed(env.f);
      hide Exported, Table, WellFormed;
      for i := 0 to |env.f.order|
        invariant binSymlinks == RootsTable(env, env.f.order[..i])
      {
        var location := env.f.order[i];
        assert env.f.order[..i + 1][..i] == env.f.order[..i];
        assert IsRoot(env.f, location);
        var symlinks := GetBinSymlinks(location, Addr(location, []));
        if symlinks != map[] {
          binSymlinks := binSymlinks[location := Get(binSymlinks, location) + symlinks];
        }
      }
      assert env.f.order[..|env.f.order|] == env.f.order;
    }
  }

  // ----- What a node exports -----

  /** The nearest packages at or below a node, in insertion order. */
  function Frontier(env: Env, a: Addr): seq<Addr>
    requires Ready(env) && a in env.f.nodes
    decreases Depth(env.f) - |a.segs|, 1, 0
  {
    if Located(env, a) then [a] else FrontierKids(env, a, |env.f.nodes[a].order|)
  }

  function FrontierKids(env: Env, a: Addr, i: nat): seq<Addr>
    requires Ready(env) && a in env.f.nodes && i <= |env.f.nodes[a].order|
    decreases Depth(env.f) - |a.segs|, 0, i
  {
    if i == 0 then []
    else
      assert a.Child(env.f.nodes[a].order[i - 1]) in env.f.nodes;
      FrontierKids(env, a, i - 1) + Frontier(env, a.Child(env.f.nodes[a].order[i - 1]))
  }

  /** The links of a list of packages, later ones winning. */
  ghost function Merged(env: Env, packages: seq<Addr>): Bins
    requires Ready(env) && forall p :: p in packages ==> p in env.f.nodes && Located(env, p)
  {
    if packages == [] then map[] else Merged(env, packages[..|packages| - 1]) + Own(env, packages[|packages| - 1])
  }

  lemma {:induction false} PlusAssoc(x: Bins, y: Bins, z: Bins)
    ensures x + (y + z) == x + y + z
    ensures x + map[] == x && map[] + x == x
  {
  }

  lemma {:induction false} MergedConcat(env: Env, p: seq<Addr>, q: seq<Addr>)
    requires Ready(env) && forall x :: x in p + q ==> x in env.f.nodes && Located(env, x)
    ensures Merged(env, p + q) == Merged(env, p) + Merged(env, q)
  {
    hide Ready, Located, Own;
    if q == [] {
      assert p + q == p;
    } else {
      var n := |q| - 1;
      assert (p + q)[..|p + q| - 1] == p + q[..n];
      MergedConcat(env, p, q[..n]);
      PlusAssoc(Merged(env, p), Merged(env, q[..n]), Own(env, q[n]));
    }
  }

  /** Package k is the last of the list that has a script of this name. */
  ghost predicate LastWith(env: Env, packages: seq<Addr>, n: string, k: int)
    requires Ready(env) && forall p :: p in packages ==> p in env.f.nodes && Located(env, p)
  {
    0 <= k < |packages| && n in Own(env, packages[k]) && forall i :: k < i < |packages| ==> n !in Own(env, packages[i])
  }

  /** A merged link is the one of the last package that has a script of its name. */
  lemma {:induction false} MergedIsLast(env: Env, packages: seq<Addr>, n: string)
    requires Ready(env) && forall p :: p in packages ==> p in env.f.nodes && Located(env, p)
    ensures n in Merged(env, packages) <==> exists k :: LastWith(env, packages, n, k)
    ensures forall k :: LastWith(env, packages, n, k) ==> Merged(env, packages)[n] == Own(env, packages[k])[n]
    decreases |packages|
  {
    hide Ready, Located, Own;
    if packages != [] {
      var m := |packages| - 1;
      var before := packages[..m];
      MergedIsLast(env, before, n);
      if n in Own(env, packages[m]) {
        assert LastWith(env, packages, n, m);
      } else {
        forall k ensures LastWith(env, packages, n, k) <==> LastWith(env, before, n, k) {
          if LastWith(env, before, n, k) {
            assert forall i :: k < i < m ==> before[i] == packages[i];
          }
          if LastWith(env, packages, n, k) {
            assert forall i :: k < i < m ==> packages[i] == before[i];
          }
        }
      }
    }
  }

  /** b is one of the packages a node's links come from: nothing between them is a package. */
  ghost predicate Nearest(env: Env, a: Addr, b: Addr) {
    && b in env.f.nodes && b.root == a.root && a.segs <= b.segs && Located(env, b)
    && forall c :: c in env.f.nodes && c.root == a.root && a.segs <= c.segs && c.segs < b.segs ==> !Located(env, c)
  }

  lemma {:induction false} ChildSegs(a: Addr, s: string, segs: seq<string>)
    ensures a.Child(s).segs <= segs <==> a.segs < segs && segs[|a.segs|] == s
  {
    if a.segs < segs && segs[|a.segs|] == s {
      assert segs[..|a.segs| + 1] == a.segs + [s];
    }
    if a.Child(s).segs <= segs {
      assert segs[..|a.segs|] == (a.segs + [s])[..|a.segs|] == a.segs;
    }
  }

  lemma {:induction false} NearestBelow(env: Env, a: Addr, b: Addr)
    requires Ready(env) && a in env.f.nodes
    ensures Located(env, a) ==> (Nearest(env, a, b) <==> b == a)
    ensures !Located(env, a) ==>
              (Nearest(env, a, b) <==> exists s :: s in env.f.nodes[a].order && Nearest(env, a.Child(s), b))
  {
    hide Located, Distinct;
    if !Located(env, a) {
      if Nearest(env, a, b) {
        assert b != a && a.segs < b.segs;
        var s := b.segs[|a.segs|];
        ChildSegs(a, s, b.segs);
        assert b.segs == a.Child(s).segs + b.segs[|a.segs| + 1..];
        ParentsExist(env.f, a.root, a.Child(s).segs, b.segs[|a.segs| + 1..]);
        assert s in env.f.nodes[a].order;
        assert Nearest(env, a.Child(s), b);
      }
      if s :| s in env.f.nodes[a].order && Nearest(env, a.Child(s), b) {
        ChildSegs(a, s, b.segs);
        forall c | c in env.f.nodes && c.root == a.root && a.segs <= c.segs && c.segs < b.segs
          ensures !Located(env, c)
        {
          if c != a {
            assert a.segs < c.segs && c.segs[|a.segs|] == b.segs[|a.segs|];
            ChildSegs(a, s, c.segs);
          }
        }
      }
    }
  }

  /** The frontier is exactly the nearest packages. */
  lemma {:induction false} FrontierIsNearest(env: Env, a: Addr, b: Addr)
    requires Ready(env) && a in env.f.nodes
    ensures b in Frontier(env, a) <==> Nearest(env, a, b)
    decreases Depth(env.f) - |a.segs|, 1, 0
  {
    NearestBelow(env, a, b);
    hide Located, Nearest, WellFormed;
    if !Located(env, a) {
      var order := env.f.nodes[a].order;
      FrontierKidsAre(env, a, |order|, b);
      assert order[..|order|] == order;
    }
  }

  lemma {:induction false} FrontierKidsAre(env: Env, a: Addr, i: nat, b: Addr)
    requires Ready(env) && a in env.f.nodes && i <= |env.f.nodes[a].order|
    ensures b in FrontierKids(env, a, i) <==> exists s :: s in env.f.nodes[a].order[..i] && Nearest(env, a.Child(s), b)
    decreases Depth(env.f) - |a.segs|, 0, i
  {
    hide Located, Nearest, Ready, Frontier, LocationOf, JoinName;
    if i > 0 {
      var order := env.f.nodes[a].order;
      var s := order[i - 1];
      ChildReady(env, a, s);
      FrontierKidsAre(env, a, i - 1, b);
      FrontierIsNearest(env, a.Child(s), b);
      assert order[..i] == order[..i - 1] + [s];
    }
  }

  /** A node exports the merged links of its nearest packages. */
  lemma {:induction false} ExportedIsMerged(env: Env, a: Addr)
    requires Ready(env) && a in env.f.nodes
    ensures forall b :: b in Frontier(env, a) ==> b in env.f.nodes && Located(env, b)
    ensures Exported(env, a) == Merged(env, Frontier(env, a))
    decreases Depth(env.f) - |a.segs|, 1, 0
  {
    hide Own, Ready, Located;
    if Located(env, a) {
      assert [a][..0] == [];
      assert Merged(env, [a]) == Merged(env, []) + Own(env, a);
    } else {
      FromKidsIsMerged(env, a, |env.f.nodes[a].order|);
    }
  }

  lemma {:induction false} NothingMerged(env: Env)
    requires Ready(env)
    ensures Merged(env, []) == map[]
  {
  }

  lemma {:induction false} ExportStep(env: Env, a: Addr, i: nat)
    requires Ready(env) && a in env.f.nodes && 1 <= i <= |env.f.nodes[a].order|
    ensures var c := a.Child(env.f.nodes[a].order[i - 1]);
            && c in env.f.nodes && |a.segs| < |c.segs| <= Depth(env.f)
            && FromKids(env, a, i) == FromKids(env, a, i - 1) + Exported(env, c)
            && FrontierKids(env, a, i) == FrontierKids(env, a, i - 1) + Frontier(env, c)
  {
    ChildReady(env, a, env.f.nodes[a].order[i - 1]);
    hide Ready, Exported, Frontier, Depth, Located;
  }

  lemma {:induction false} NoKidsExport(env: Env, a: Addr)
    requires Ready(env) && a in env.f.nodes
    ensures FromKids(env, a, 0) == map[] && FrontierKids(env, a, 0) == []
  {
  }

  lemma {:induction false} FromKidsIsMerged(env: Env, a: Addr, i: nat)
    requires Ready(env) && a in env.f.nodes && i <= |env.f.nodes[a].order|
    ensures forall b :: b in FrontierKids(env, a, i) ==> b in env.f.nodes && Located(env, b)
    ensures FromKids(env, a, i) == Merged(env, FrontierKids(env, a, i))
    decreases Depth(env.f) - |a.segs|, 0, i
  {
    hide Own, Ready, Located, Frontier, Exported, Merged, FromKids, FrontierKids, Depth;
    if i == 0 {
      NothingMerged(env);
      NoKidsExport(env, a);
    } else {
      ExportStep(env, a, i);
      var c := a.Child(env.f.nodes[a].order[i - 1]);
      FromKidsIsMerged(env, a, i - 1);
      ExportedIsMerged(env, c);
      MergedConcat(env, FrontierKids(env, a, i - 1), Frontier(env, c));
    }
  }

  // ----- What the table holds -----

  predicate HasKids(env: Env, b: Addr) {
    b in env.f.nodes && env.f.nodes[b].order != []
  }

  /** No directory of a node with children at or below a is the given one. */
  ghost predicate Elsewhere(env: Env, a: Addr, key: Path) {
    forall b :: HasKids(env, b) && b.root == a.root && a.segs <= b.segs ==> LocationOf(b) != key
  }

  ghost predicate Same(t: BinMap, u: BinMap, key: Path) {
    (key in t <==> key in u) && (key in t ==> t[key] == u[key])
  }

  lemma {:induction false} ElsewhereBelow(env: Env, a: Addr, s: string, key: Path)
    requires Elsewhere(env, a, key)
    ensures Elsewhere(env, a.Child(s), key)
  {
    hide LocationOf, HasKids;
    forall b | HasKids(env, b) && b.root == a.root && a.Child(s).segs <= b.segs ensures LocationOf(b) != key {
      ChildSegs(a, s, b.segs);
    }
  }

  /** The recursion on a node writes only the directories of nodes with children below it. */
  lemma {:induction false} TableWritesBelow(env: Env, a: Addr, table: BinMap, key: Path)
    requires Ready(env) && a in env.f.nodes && Elsewhere(env, a, key)
    ensures Same(Table(env, a, table), table, key)
    decreases Depth(env.f) - |a.segs|, 1, 0
  {
    hide Ready, Elsewhere;
    TableKidsWriteBelow(env, a, |env.f.nodes[a].order|, table, key);
  }

  lemma {:induction false} TableKidsWriteBelow(env: Env, a: Addr, i: nat, table: BinMap, key: Path)
    requires Ready(env) && a in env.f.nodes && i <= |env.f.nodes[a].order| && Elsewhere(env, a, key)
    ensures Same(TableKids(env, a, i, table), table, key)
    decreases Depth(env.f) - |a.segs|, 0, i
  {
    hide Ready, Located, LocationOf, Exported;
    if i > 0 {
      var s := env.f.nodes[a].order[i - 1];
      ChildReady(env, a, s);
      ElsewhereBelow(env, a, s, key);
      assert LocationOf(a) != key by { assert HasKids(env, a); }
      hide Elsewhere;
      TableKidsWriteBelow(env, a, i - 1, table, key);
      TableWritesBelow(env, a.Child(s), TableKids(env, a, i - 1, table), key);
    }
  }

  lemma {:induction false} AddGet(table: BinMap, key: Path, links: Bins)
    ensures Get(Add(table, key, links), key) == Get(table, key) + links
    ensures key in Add(table, key, links) <==> key in table || links != map[]
  {
  }

  /** What a node adds to its own directory: its children's links if it is a package. */
  function Collected(env: Env, c: Addr): Bins
    requires Ready(env) && c in env.f.nodes
  {
    if Located(env, c) then FromKids(env, c, |env.f.nodes[c].order|) else map[]
  }

  /** For its own directory a package collects what its children export, in order. */
  lemma {:induction false} OwnDirectory(env: Env, a: Addr, i: nat, table: BinMap)
    requires Ready(env) && a in env.f.nodes && i <= |env.f.nodes[a].order|
    requires forall s :: s in env.f.nodes[a].order ==> Elsewhere(env, a.Child(s), LocationOf(a))
    ensures Get(TableKids(env, a, i, table), LocationOf(a))
            == Get(table, LocationOf(a)) + if Located(env, a) then FromKids(env, a, i) else map[]
    decreases i
  {
    hide Ready, Located, LocationOf, Exported, Elsewhere, Table, Add;
    var key := LocationOf(a);
    if i > 0 {
      var s := env.f.nodes[a].order[i - 1];
      ChildReady(env, a, s);
      OwnDirectory(env, a, i - 1, table);
      var before := TableKids(env, a, i - 1, table);
      var next := Table(env, a.Child(s), before);
      TableWritesBelow(env, a.Child(s), before, key);
      var links := Exported(env, a.Child(s));
      AddGet(next, key, links);
      PlusAssoc(Get(table, key), if Located(env, a) then FromKids(env, a, i - 1) else map[], links);
    } else {
      PlusAssoc(Get(table, key), map[], map[]);
    }
  }

  // ----- Which nodes have which directory -----

  /** The directory is in the project, and not in a node_modules directory below it. */
  predicate Outside(skip: Path, r: Path) {
    skip <= r && NODE_MODULES !in r[|skip|..]
  }

  /** Only location roots outside node_modules directories have children. */
  ghost predicate BareInModules(f: Forest, skip: Path) {
    forall r :: IsRoot(f, r) && f.nodes[Addr(r, [])].order != [] ==> Outside(skip, r)
  }

  /** Nodes below a root that have children start with node_modules, below a clean root. */
  ghost predicate ModulesFirst(f: Forest) {
    forall b :: b in f.nodes && f.nodes[b].order != [] && b.segs != [] ==>
      CleanPath(b.root) && CleanPath(b.segs) && b.segs[0] == NODE_MODULES
  }

  lemma {:induction false} ParentsAreOutside(env: Env, b: Addr)
    requires WellFormed(env.f) && BareInModules(env.f, env.skip) && HasKids(env, b)
    ensures IsRoot(env.f, b.root) && Outside(env.skip, b.root)
  {
    hide Distinct;
    ParentsExist(env.f, b.root, [], b.segs) by { assert [] + b.segs == b.segs; }
    if b.segs != [] {
      var s := b.segs[0];
      assert [s] + b.segs[1..] == b.segs;
      ParentsExist(env.f, b.root, [s], b.segs[1..]);
      ChildrenPresent(env.f, b.root);
    }
  }

  lemma {:induction false} PlainLocation(env: Env, b: Addr)
    requires ModulesFirst(env.f) && HasKids(env, b)
    ensures LocationOf(b) == b.root + b.segs
    ensures b.segs != [] ==> b.segs[0] == NODE_MODULES
  {
    if b.segs != [] {
      assert CleanPath(b.root + b.segs);
      NonEmptyClean(b.root + b.segs);
    } else {
      assert b.root + b.segs == b.root;
    }
  }

  lemma {:induction false} SameSplit(skip: Path, r: Path, s: seq<string>, r': Path, s': seq<string>)
    requires r + s == r' + s' && skip <= r && skip <= r'
    requires NODE_MODULES !in r[|skip|..] && NODE_MODULES !in r'[|skip|..]
    requires s != [] ==> s[0] == NODE_MODULES
    ensures |r'| <= |r|
    ensures |r| == |r'| ==> r == r' && s == s'
  {
    var whole := r + s;
    assert r == whole[..|r|] && r' == whole[..|r'|] && s == whole[|r|..] && s' == whole[|r'|..];
    forall k | |skip| <= k < |r'| ensures r'[k] != NODE_MODULES {
      assert r'[|skip|..][k - |skip|] == r'[k];
    }
    assert s != [] ==> whole[|r|] == NODE_MODULES;
    assert forall k :: 0 <= k < |r'| ==> whole[k] == r'[k];
  }

  /** Two nodes with children never have the same directory. */
  lemma {:induction false} DirectoriesDisjoint(env: Env, b: Addr, c: Addr)
    requires WellFormed(env.f) && BareInModules(env.f, env.skip) && ModulesFirst(env.f)
    requires HasKids(env, b) && HasKids(env, c) && LocationOf(b) == LocationOf(c)
    ensures b == c
  {
    PlainLocation(env, b);
    PlainLocation(env, c);
    ParentsAreOutside(env, b);
    ParentsAreOutside(env, c);
    hide NonEmpty, LocationOf, Distinct;
    SameSplit(env.skip, b.root, b.segs, c.root, c.segs);
    SameSplit(env.skip, c.root, c.segs, b.root, b.segs);
  }

  lemma {:induction false} ReadyForest(env: Env)
    requires Ready(env)
    ensures WellFormed(env.f)
  {
  }

  // ----- What one directory of the table holds -----

  predicate Below(a: Addr, c: Addr) {
    c.root == a.root && a.segs <= c.segs
  }

  lemma {:induction false} OnlyDirectory(env: Env, a: Addr, c: Addr)
    requires Ready(env) && BareInModules(env.f, env.skip) && ModulesFirst(env.f)
    requires HasKids(env, c) && !Below(a, c)
    ensures Elsewhere(env, a, LocationOf(c))
  {
    ReadyForest(env);
    hide Ready, LocationOf, HasKids, BareInModules, ModulesFirst;
    forall b | HasKids(env, b) && b.root == a.root && a.segs <= b.segs ensures LocationOf(b) != LocationOf(c) {
      if LocationOf(b) == LocationOf(c) { DirectoriesDisjoint(env, b, c); }
    }
  }

  lemma {:induction false} ChildTowards(env: Env, a: Addr, c: Addr)
    requires Ready(env) && a in env.f.nodes && c in env.f.nodes && Below(a, c) && a != c
    ensures |a.segs| < |c.segs| && c.segs[|a.segs|] in env.f.nodes[a].order
    ensures forall s :: Below(a.Child(s), c) <==> s == c.segs[|a.segs|]
  {
    hide Located, Distinct;
    var s := c.segs[|a.segs|];
    forall t: string ensures Below(a.Child(t), c) <==> t == s {
      ChildSegs(a, t, c.segs);
    }
    assert c.segs == a.Child(s).segs + c.segs[|a.segs| + 1..];
    ParentsExist(env.f, a.root, a.Child(s).segs, c.segs[|a.segs| + 1..]);
  }

  /** One child of a: its recursion, and the links that a then gets. */
  function WithChild(env: Env, a: Addr, i: nat, before: BinMap): BinMap
    requires Ready(env) && a in env.f.nodes && 1 <= i <= |env.f.nodes[a].order|
  {
    assert a.Child(env.f.nodes[a].order[i - 1]) in env.f.nodes;
    var c := a.Child(env.f.nodes[a].order[i - 1]);
    var next := Table(env, c, before);
    if Located(env, a) then Add(next, LocationOf(a), Exported(env, c)) else next
  }

  lemma {:induction false} TableKidsStep(env: Env, a: Addr, i: nat, table: BinMap)
    requires Ready(env) && a in env.f.nodes && 1 <= i <= |env.f.nodes[a].order|
    ensures TableKids(env, a, i, table) == WithChild(env, a, i, TableKids(env, a, i - 1, table))
  {
    hide Ready, Located, Exported, LocationOf, Add;
  }

  lemma {:induction false} OtherDirectory(env: Env, a: Addr, s: string, c: Addr)
    requires Ready(env) && BareInModules(env.f, env.skip) && ModulesFirst(env.f)
    requires a in env.f.nodes && s in env.f.nodes[a].order && HasKids(env, c) && a != c
    ensures LocationOf(a) != LocationOf(c)
  {
    ReadyForest(env);
    hide Ready, LocationOf, BareInModules, ModulesFirst;
    if LocationOf(a) == LocationOf(c) { DirectoriesDisjoint(env, a, c); }
  }

  lemma {:induction false} AddOther(table: BinMap, key: Path, links: Bins, other: Path)
    requires key != other
    ensures Same(Add(table, key, links), table, other)
  {
  }

  lemma {:induction false} ProperlyBelow(a: Addr, c: Addr)
    requires Below(a, c) && a != c
    ensures |a.segs| < |c.segs|
  {
    assert |a.segs| == |c.segs| ==> a.segs == c.segs;
  }

  /** Links that one of several steps adds are added once. */
  lemma {:induction false} AddedOnce(base: Bins, links: Bins, before: bool, now: bool)
    requires !(before && now)
    ensures base + (if before then links else map[]) + (if now then links else map[])
            == base + if before || now then links else map[]
  {
  }

  /** One of the first i names. */
  predicate Among(order: seq<string>, i: nat, t: string)
    requires i <= |order|
  {
    t in order[..i]
  }

  lemma {:induction false} NoKidsYet(env: Env, a: Addr, table: BinMap, t: string)
    requires Ready(env) && a in env.f.nodes
    ensures TableKids(env, a, 0, table) == table && !Among(env.f.nodes[a].order, 0, t)
  {
  }

  lemma {:induction false} DistinctOrder(env: Env, a: Addr)
    requires Ready(env) && a in env.f.nodes
    ensures Distinct(env.f.nodes[a].order)
  {
  }

  lemma {:induction false} AmongStep(order: seq<string>, i: nat, t: string)
    requires 1 <= i <= |order| && Distinct(order)
    ensures Among(order, i, t) <==> Among(order, i - 1, t) || order[i - 1] == t
    ensures !(Among(order, i - 1, t) && order[i - 1] == t)
  {
    assert order[..i] == order[..i - 1] + [order[i - 1]];
  }

  /** The recursion on a node adds to a directory below it what the node of that directory collects. */
  lemma {:induction false} TableAt(env: Env, a: Addr, c: Addr, table: BinMap)
    requires Ready(env) && BareInModules(env.f, env.skip) && ModulesFirst(env.f)
    requires a in env.f.nodes && HasKids(env, c) && Below(a, c)
    ensures Get(Table(env, a, table), LocationOf(c)) == Get(table, LocationOf(c)) + Collected(env, c)
    decreases Depth(env.f) - |a.segs|, 1, 0
  {
    var order := env.f.nodes[a].order;
    hide Ready, BareInModules, ModulesFirst, LocationOf, TableKids, FromKids, Located, Elsewhere;
    if a == c {
      forall s | s in order ensures Elsewhere(env, a.Child(s), LocationOf(c)) {
        OnlyDirectory(env, a.Child(s), c);
      }
      OwnDirectory(env, a, |order|, table);
    } else {
      ChildTowards(env, a, c);
      TableKidsAt(env, a, |order|, c, table);
      assert order[..|order|] == order;
    }
  }

  lemma {:induction false} ChildAdds(env: Env, a: Addr, i: nat, c: Addr, before: BinMap)
    requires Ready(env) && BareInModules(env.f, env.skip) && ModulesFirst(env.f)
    requires a in env.f.nodes && 1 <= i <= |env.f.nodes[a].order| && HasKids(env, c) && Below(a, c) && a != c
    ensures |a.segs| < |c.segs|
    ensures Get(WithChild(env, a, i, before), LocationOf(c))
            == Get(before, LocationOf(c))
               + if env.f.nodes[a].order[i - 1] == c.segs[|a.segs|] then Collected(env, c) else map[]
    decreases Depth(env.f) - |a.segs|, 0, 0
  {
    ChildTowards(env, a, c);
    hide Ready, BareInModules, ModulesFirst, LocationOf, Collected, Located, Exported, Table, Elsewhere, Below,
         HasKids, Add;
    var key, s := LocationOf(c), env.f.nodes[a].order[i - 1];
    ChildReady(env, a, s);
    OtherDirectory(env, a, s, c);
    AddOther(Table(env, a.Child(s), before), LocationOf(a), Exported(env, a.Child(s)), key);
    if s == c.segs[|a.segs|] {
      TableAt(env, a.Child(s), c, before);
    } else {
      OnlyDirectory(env, a.Child(s), c);
      TableWritesBelow(env, a.Child(s), before, key);
      PlusAssoc(Get(before, key), map[], map[]);
    }
  }

  lemma {:induction false} TableKidsAt(env: Env, a: Addr, i: nat, c: Addr, table: BinMap)
    requires Ready(env) && BareInModules(env.f, env.skip) && ModulesFirst(env.f)
    requires a in env.f.nodes && i <= |env.f.nodes[a].order| && HasKids(env, c) && Below(a, c) && a != c
    ensures |a.segs| < |c.segs|
    ensures Get(TableKids(env, a, i, table), LocationOf(c))
            == Get(table, LocationOf(c))
               + if Among(env.f.nodes[a].order, i, c.segs[|a.segs|]) then Collected(env, c) else map[]
    decreases Depth(env.f) - |a.segs|, 0, i
  {
    ProperlyBelow(a, c);
    hide Ready, BareInModules, ModulesFirst, LocationOf, Collected, WithChild, Below, HasKids, Get, Depth, TableKids,
         Among, Distinct;
    var order, t := env.f.nodes[a].order, c.segs[|a.segs|];
    if i == 0 {
      NoKidsYet(env, a, table, t);
      PlusAssoc(Get(table, LocationOf(c)), map[], map[]);
    } else {
      var key, links := LocationOf(c), Collected(env, c);
      var before := TableKids(env, a, i - 1, table);
      assert Get(before, key) == Get(table, key) + if Among(order, i - 1, t) then links else map[] by {
        TableKidsAt(env, a, i - 1, c, table);
      }
      assert Get(WithChild(env, a, i, before), key)
             == Get(before, key) + if order[i - 1] == t then links else map[] by {
        ChildAdds(env, a, i, c, before);
      }
      assert TableKids(env, a, i, table) == WithChild(env, a, i, before) by { TableKidsStep(env, a, i, table); }
      DistinctOrder(env, a);
      AmongStep(order, i, t);
      AddedOnce(Get(table, key), links, Among(order, i - 1, t), order[i - 1] == t);
    }
  }

  /** c is the one node with children whose directory this is; None if there is none. */
  ghost predicate IsDirectory(env: Env, c: Option<Addr>, key: Path) {
    match c
    case Some(c) => HasKids(env, c) && LocationOf(c) == key
    case None => forall b :: HasKids(env, b) ==> LocationOf(b) != key
  }

  /** What the recursion on a root puts into a directory. */
  function InnerPiece(env: Env, c: Option<Addr>, q: Path): Bins
    requires Ready(env) && (c.Some? ==> HasKids(env, c.value))
  {
    if c.Some? && c.value.root == q then Collected(env, c.value) else map[]
  }

  /** What one location root puts into a directory: what its node there collects, and its own links. */
  function Piece(env: Env, c: Option<Addr>, key: Path, q: Path): Bins
    requires Ready(env) && IsRoot(env.f, q) && (c.Some? ==> HasKids(env, c.value))
  {
    InnerPiece(env, c, q) + if q == key then Exported(env, Addr(q, [])) else map[]
  }

  ghost function Pieces(env: Env, c: Option<Addr>, key: Path, roots: seq<Path>): Bins
    requires Ready(env) && (c.Some? ==> HasKids(env, c.value)) && forall q :: q in roots ==> IsRoot(env.f, q)
  {
    if roots == [] then map[]
    else
      assert roots[|roots| - 1] in roots;
      Pieces(env, c, key, roots[..|roots| - 1]) + Piece(env, c, key, roots[|roots| - 1])
  }

  lemma {:induction false} RecursionAdds(env: Env, c: Option<Addr>, key: Path, q: Path, table: BinMap)
    requires Ready(env) && BareInModules(env.f, env.skip) && ModulesFirst(env.f)
    requires IsRoot(env.f, q) && IsDirectory(env, c, key) && (c.Some? ==> HasKids(env, c.value))
    ensures Get(Table(env, Addr(q, []), table), key) == Get(table, key) + InnerPiece(env, c, q)
  {
    var a := Addr(q, []);
    hide Ready, BareInModules, ModulesFirst, Collected, Table, LocationOf, HasKids;
    if c.Some? && c.value.root == q {
      TableAt(env, a, c.value, table);
    } else {
      if c.Some? { OnlyDirectory(env, a, c.value); }
      assert Elsewhere(env, a, key);
      TableWritesBelow(env, a, table, key);
      PlusAssoc(Get(table, key), map[], map[]);
    }
  }

  lemma {:induction false} SameGet(t: BinMap, u: BinMap, key: Path)
    requires Same(t, u, key)
    ensures Get(t, key) == Get(u, key)
  {
  }

  lemma {:induction false} DirectoryKids(env: Env, c: Option<Addr>, key: Path)
    requires IsDirectory(env, c, key)
    ensures c.Some? ==> HasKids(env, c.value)
  {
  }

  lemma {:induction false} RootAdds(env: Env, c: Option<Addr>, key: Path, q: Path, table: BinMap)
    requires Ready(env) && BareInModules(env.f, env.skip) && ModulesFirst(env.f)
    requires IsRoot(env.f, q) && IsDirectory(env, c, key)
    ensures Get(Add(Table(env, Addr(q, []), table), q, Exported(env, Addr(q, []))), key)
            == Get(table, key) + Piece(env, c, key, q)
  {
    var a := Addr(q, []);
    DirectoryKids(env, c, key);
    RecursionAdds(env, c, key, q, table);
    hide Ready, BareInModules, ModulesFirst, IsDirectory, Collected, Exported, Table, Add, Get, InnerPiece;
    var next, links := Table(env, a, table), Exported(env, a);
    if q == key {
      AddGet(next, key, links);
    } else {
      AddOther(next, q, links, key);
      SameGet(Add(next, q, links), next, key);
    }
    PlusAssoc(Get(table, key), InnerPiece(env, c, q), if q == key then links else map[]);
    PlusAssoc(Get(next, key), map[], map[]);
  }

  /** The table holds in each directory the pieces of the roots, in their order. */
  lemma {:induction false} RootsTableAt(env: Env, c: Option<Addr>, key: Path, roots: seq<Path>)
    requires Ready(env) && BareInModules(env.f, env.skip) && ModulesFirst(env.f)
    requires IsDirectory(env, c, key) && forall q :: q in roots ==> IsRoot(env.f, q)
    ensures Get(RootsTable(env, roots), key) == Pieces(env, c, key, roots)
    decreases |roots|
  {
    hide Ready, BareInModules, ModulesFirst, IsDirectory, Piece, Exported, Table, Add;
    assert IsDirectory(env, c, key) && (c.Some? ==> HasKids(env, c.value)) by { DirectoryKids(env, c, key); }
    if roots != [] {
      var n := |roots| - 1;
      assert roots[n] in roots && IsRoot(env.f, roots[n]);
      RootsTableAt(env, c, key, roots[..n]);
      RootAdds(env, c, key, roots[n], RootsTable(env, roots[..n]));
    }
  }

  /** No directory of the table is left without links. */
  ghost predicate NoneEmpty(table: BinMap) {
    forall key :: key in table ==> table[key] != map[]
  }

  lemma {:induction false} PlusEmpty(x: Bins, y: Bins)
    ensures x + y == map[] <==> x == map[] && y == map[]
  {
    if x + y == map[] {
      assert forall k :: k in x || k in y ==> k in x + y;
    }
  }

  lemma {:induction false} AddNoneEmpty(table: BinMap, key: Path, links: Bins)
    requires NoneEmpty(table)
    ensures NoneEmpty(Add(table, key, links))
  {
    PlusEmpty(Get(table, key), links);
  }

  lemma {:induction false} TableNoneEmpty(env: Env, a: Addr, table: BinMap)
    requires Ready(env) && a in env.f.nodes && NoneEmpty(table)
    ensures NoneEmpty(Table(env, a, table))
    decreases Depth(env.f) - |a.segs|, 1, 0
  {
    hide Ready, NoneEmpty;
    TableKidsNoneEmpty(env, a, |env.f.nodes[a].order|, table);
  }

  lemma {:induction false} TableKidsNoneEmpty(env: Env, a: Addr, i: nat, table: BinMap)
    requires Ready(env) && a in env.f.nodes && i <= |env.f.nodes[a].order| && NoneEmpty(table)
    ensures NoneEmpty(TableKids(env, a, i, table))
    decreases Depth(env.f) - |a.segs|, 0, i
  {
    hide Ready, NoneEmpty, Located, LocationOf, Exported, Add;
    if i > 0 {
      var s := env.f.nodes[a].order[i - 1];
      ChildReady(env, a, s);
      TableKidsNoneEmpty(env, a, i - 1, table);
      TableNoneEmpty(env, a.Child(s), TableKids(env, a, i - 1, table));
      AddNoneEmpty(Table(env, a.Child(s), TableKids(env, a, i - 1, table)), LocationOf(a), Exported(env, a.Child(s)));
    }
  }

  lemma {:induction false} NothingEmpty()
    ensures NoneEmpty(map[])
  {
  }

  lemma {:induction false} RootsTableNoneEmpty(env: Env, roots: seq<Path>)
    requires Ready(env) && forall q :: q in roots ==> IsRoot(env.f, q)
    ensures NoneEmpty(RootsTable(env, roots))
  {
    hide Ready, NoneEmpty, Exported, Table, Add;
    if roots == [] {
      assert NoneEmpty(map[]) by { NothingEmpty(); }
    } else {
      var n := |roots| - 1;
      var a := Addr(roots[n], []);
      assert roots[n] in roots && IsRoot(env.f, roots[n]);
      RootsTableNoneEmpty(env, roots[..n]);
      TableNoneEmpty(env, a, RootsTable(env, roots[..n]));
      AddNoneEmpty(Table(env, a, RootsTable(env, roots[..n])), roots[n], Exported(env, a));
    }
  }

  // ----- Location roots -----

  /** The links a location root has itself: its children's, overridden by its own. */
  function RootLinks(env: Env, r: Path): Bins
    requires Ready(env) && IsRoot(env.f, r)
  {
    var a := Addr(r, []);
    FromKids(env, a, |env.f.nodes[a].order|) + if Located(env, a) then Own(env, a) else map[]
  }

  /** The links that a package in the tree of another root collects for this directory. */
  function Outer(env: Env, c: Option<Addr>, key: Path): Bins
    requires Ready(env) && (c.Some? ==> HasKids(env, c.value))
  {
    if c.Some? && c.value.root != key then Collected(env, c.value) else map[]
  }

  lemma {:induction false} ParentHasKids(env: Env, c: Addr)
    requires WellFormed(env.f) && HasKids(env, c)
    ensures HasKids(env, Addr(c.root, []))
  {
    hide Distinct;
    if c.segs != [] {
      assert [c.segs[0]] + c.segs[1..] == c.segs && [] + c.segs == c.segs;
      ParentsExist(env.f, c.root, [c.segs[0]], c.segs[1..]);
      ParentsExist(env.f, c.root, [], c.segs);
      ChildrenPresent(env.f, c.root);
    }
  }

  lemma {:induction false} OwnPiece(env: Env, c: Option<Addr>, r: Path)
    requires Ready(env) && BareInModules(env.f, env.skip) && ModulesFirst(env.f)
    requires IsRoot(env.f, r) && IsDirectory(env, c, r)
    ensures Piece(env, c, r, r) == RootLinks(env, r)
  {
    ReadyForest(env);
    var a := Addr(r, []);
    var kids, own := FromKids(env, a, |env.f.nodes[a].order|), if Located(env, a) then Own(env, a) else map[];
    assert LocationOf(a) == r;
    if HasKids(env, a) && c.Some? { DirectoriesDisjoint(env, a, c.value); }
    if c.Some? && c.value.root == r && !HasKids(env, a) { ParentHasKids(env, c.value); }
    hide Ready, BareInModules, ModulesFirst, LocationOf, Located, Own, FromKids;
    PlusAssoc(kids, map[], map[]);
    PlusAssoc(own, map[], map[]);
  }

  /** x comes before y in the list. */
  ghost predicate Before(roots: seq<Path>, x: Path, y: Path) {
    exists i, j :: 0 <= i < j < |roots| && roots[i] == x && roots[j] == y
  }

  lemma {:induction false} BeforeSnoc(roots: seq<Path>, last: Path, x: Path, y: Path)
    ensures Before(roots + [last], x, y) <==> Before(roots, x, y) || (last == y && x in roots)
  {
    var more := roots + [last];
    if i, j :| 0 <= i < j < |roots| && roots[i] == x && roots[j] == y {
      assert more[i] == x && more[j] == y;
    }
    if last == y && x in roots {
      var i :| 0 <= i < |roots| && roots[i] == x;
      assert more[i] == x && more[|roots|] == y;
    }
    if i, j :| 0 <= i < j < |more| && more[i] == x && more[j] == y {
      assert roots[i] == x && (j < |roots| ==> roots[j] == y);
    }
  }

  lemma {:induction false} BeforeMeans(roots: seq<Path>, x: Path, y: Path)
    requires Distinct(roots) && x != y
    ensures Before(roots, x, y) ==> x in roots && y in roots && !Before(roots, y, x)
    ensures x in roots && y in roots ==> Before(roots, x, y) || Before(roots, y, x)
  {
    if x in roots && y in roots {
      var i :| 0 <= i < |roots| && roots[i] == x;
      var j :| 0 <= j < |roots| && roots[j] == y;
    }
  }

  /** The outer links and a root's own ones, whichever comes later winning. */
  ghost function InOrder(roots: seq<Path>, q: Path, r: Path, outer: Bins, own: Bins): Bins {
    if Before(roots, q, r) then outer + own else own + outer
  }

  /** The root whose tree holds the node of this directory. */
  function HomeOf(c: Option<Addr>, key: Path): Path {
    if c.Some? then c.value.root else key
  }

  /** The links of another root's tree that the listed roots bring here. */
  function OuterOf(env: Env, c: Option<Addr>, key: Path, roots: seq<Path>): Bins
    requires Ready(env) && (c.Some? ==> HasKids(env, c.value))
  {
    if HomeOf(c, key) in roots then Outer(env, c, key) else map[]
  }

  function OwnOf(env: Env, c: Option<Addr>, key: Path, roots: seq<Path>): Bins
    requires Ready(env) && (c.Some? ==> HasKids(env, c.value)) && forall q :: q in roots ==> IsRoot(env.f, q)
  {
    if key in roots then Piece(env, c, key, key) else map[]
  }

  lemma {:induction false} NotBeforeItself(roots: seq<Path>, x: Path)
    requires Distinct(roots)
    ensures !Before(roots, x, x)
  {
  }

  lemma {:induction false} SamePlace(roots: seq<Path>, others: seq<Path>, q: Path, key: Path)
    requires Distinct(roots) && Distinct(others) && (forall x :: x in roots <==> x in others)
    ensures q == key ==> !Before(roots, q, key) && !Before(others, q, key)
    ensures q !in roots || key !in roots ==> !Before(roots, q, key) && !Before(others, q, key)
  {
    if q == key {
      NotBeforeItself(roots, q);
      NotBeforeItself(others, q);
    } else {
      BeforeMeans(roots, q, key);
      BeforeMeans(others, q, key);
    }
  }

  lemma {:induction false} PieceIs(env: Env, c: Option<Addr>, key: Path, q: Path)
    requires Ready(env) && (c.Some? ==> HasKids(env, c.value)) && IsRoot(env.f, q) && q != key
    ensures Piece(env, c, key, q) == if q == HomeOf(c, key) then Outer(env, c, key) else map[]
  {
    hide Collected, Exported, Ready;
    if c.Some? && c.value.root == q { PlusAssoc(Collected(env, c.value), map[], map[]); }
  }

  lemma {:induction false} NoOuterAtHome(env: Env, c: Option<Addr>, key: Path)
    requires Ready(env) && (c.Some? ==> HasKids(env, c.value)) && HomeOf(c, key) == key
    ensures Outer(env, c, key) == map[]
  {
  }

  lemma {:induction false} DistinctInit(roots: seq<Path>)
    requires Distinct(roots) && roots != []
    ensures Distinct(roots[..|roots| - 1]) && roots[|roots| - 1] !in roots[..|roots| - 1]
  {
  }

  /** Pieces of roots other than the directory itself and the root of its node are empty. */
  lemma {:induction false} PiecesAre(env: Env, c: Option<Addr>, key: Path, roots: seq<Path>)
    requires Ready(env) && (c.Some? ==> HasKids(env, c.value)) && Distinct(roots)
    requires forall q :: q in roots ==> IsRoot(env.f, q)
    ensures Pieces(env, c, key, roots)
            == InOrder(roots, HomeOf(c, key), key, OuterOf(env, c, key, roots), OwnOf(env, c, key, roots))
    decreases |roots|
  {
    hide Ready, HasKids, Distinct, Before, Piece, Outer;
    var q := HomeOf(c, key);
    if roots != [] {
      var n := |roots| - 1;
      var last, init := roots[n], roots[..n];
      DistinctInit(roots);
      assert roots == init + [last] && last in roots;
      PiecesAre(env, c, key, init);
      BeforeSnoc(init, last, q, key);
      var outer, own := OuterOf(env, c, key, init), OwnOf(env, c, key, init);
      PlusAssoc(own, outer, map[]);
      PlusAssoc(outer, own, map[]);
      if q != key { BeforeMeans(init, q, key); } else { NotBeforeItself(init, q); NoOuterAtHome(env, c, key); }
      if last != key { PieceIs(env, c, key, last); }
      PlusAssoc(Piece(env, c, key, last), map[], map[]);
    }
  }

  /** No name with different targets on both sides. */
  ghost predicate Agree(x: Bins, y: Bins) {
    forall n :: n in x && n in y ==> x[n] == y[n]
  }

  lemma {:induction false} SumsAgree(x: Bins, y: Bins)
    ensures x + y == y + x <==> Agree(x, y)
  {
    if x + y == y + x {
      forall n | n in x && n in y ensures x[n] == y[n] {
        assert (x + y)[n] == y[n] && (y + x)[n] == x[n];
      }
    }
  }

  lemma {:induction false} DirectoryExists(env: Env, key: Path) returns (c: Option<Addr>)
    ensures IsDirectory(env, c, key)
  {
    if b :| HasKids(env, b) && LocationOf(b) == key {
      c := Some(b);
    } else {
      c := None;
    }
  }

  /** A root outside node_modules shares its directory with no node of another root's tree. */
  lemma {:induction false} OutsideIsUnshared(env: Env, c: Option<Addr>, r: Path)
    requires Ready(env) && BareInModules(env.f, env.skip) && ModulesFirst(env.f)
    requires IsDirectory(env, c, r) && Outside(env.skip, r)
    ensures HomeOf(c, r) == r
  {
    hide Ready, NonEmpty;
    if c.Some? {
      var b := c.value;
      PlainLocation(env, b);
      assert [] + b.segs == b.segs && r + [] == r;
      ReadyForest(env);
      ParentsAreOutside(env, b);
      SameSplit(env.skip, b.root, b.segs, r, []);
      SameSplit(env.skip, r, [], b.root, b.segs);
    }
  }

  /**
   What the table holds for a location root: its own links, merged in the order of the roots with
   those that a package of another root's tree collects for the same directory.
   */
  lemma {:induction false} RootEntry(env: Env, c: Option<Addr>, roots: seq<Path>, r: Path)
    requires Ready(env) && BareInModules(env.f, env.skip) && ModulesFirst(env.f)
    requires Distinct(roots) && (forall q :: q in roots ==> IsRoot(env.f, q)) && r in roots && IsDirectory(env, c, r)
    ensures c.Some? ==> HasKids(env, c.value)
    ensures Get(RootsTable(env, roots), r)
            == InOrder(roots, HomeOf(c, r), r, OuterOf(env, c, r, roots), RootLinks(env, r))
  {
    DirectoryKids(env, c, r);
    RootsTableAt(env, c, r, roots);
    PiecesAre(env, c, r, roots);
    OwnPiece(env, c, r);
  }

  /** The two orders put the root of the directory's node and the directory itself differently. */
  ghost predicate Swapped(roots: seq<Path>, others: seq<Path>, q: Path, key: Path) {
    q != key && q in roots && key in roots && (Before(roots, q, key) <==> !Before(others, q, key))
  }

  lemma {:induction false} SameByGet(t: BinMap, u: BinMap, key: Path)
    requires NoneEmpty(t) && NoneEmpty(u)
    ensures Same(t, u, key) <==> Get(t, key) == Get(u, key)
  {
  }

  /**
   Non-interference of roots, exactly: the order of the roots changes nothing in a directory, unless
   the directory is itself a location root, the orders put it and the root of its node differently,
   and some name has different targets in the links of the two.
   */
  lemma {:induction false} RootOrderMatters(env: Env, c: Option<Addr>, roots: seq<Path>, others: seq<Path>, key: Path)
    requires Ready(env) && BareInModules(env.f, env.skip) && ModulesFirst(env.f)
    requires Distinct(roots) && Distinct(others) && (forall q :: q in roots <==> q in others)
    requires (forall q :: q in roots ==> IsRoot(env.f, q)) && IsDirectory(env, c, key)
    ensures c.Some? ==> HasKids(env, c.value)
    ensures Same(RootsTable(env, roots), RootsTable(env, others), key)
            <==> (Swapped(roots, others, HomeOf(c, key), key) ==> Agree(Outer(env, c, key), RootLinks(env, key)))
  {
    DirectoryKids(env, c, key);
    RootsTableAt(env, c, key, roots);
    RootsTableAt(env, c, key, others);
    PiecesAre(env, c, key, roots);
    PiecesAre(env, c, key, others);
    if key in roots { OwnPiece(env, c, key); }
    RootsTableNoneEmpty(env, roots);
    RootsTableNoneEmpty(env, others);
    var q := HomeOf(c, key);
    SamePlace(roots, others, q, key);
    hide Ready, BareInModules, ModulesFirst, IsDirectory, HasKids, Distinct, Before, Piece, Outer, HomeOf, RootsTable,
         RootLinks, Pieces, Agree;
    SumsAgree(OuterOf(env, c, key, roots), OwnOf(env, c, key, roots));
    SameByGet(RootsTable(env, roots), RootsTable(env, others), key);
  }

  lemma {:induction false} ChildListed(f: Forest, b: Addr, s: string)
    requires WellFormed(f) && b in f.nodes && s in f.nodes[b].order
    ensures b.Child(s) in f.nodes
  {
  }

  /** The tree of a locator map satisfies what the theorems about bin links ask for. */
  lemma {:induction false} BuiltTreeIsReady(m: LocatorMap, env: Env)
    requires AllInside(m, env.skip) && CleanPath(env.skip) && env.f == ApplyAll(Ops(m, env.skip))
    requires forall i :: 0 <= i < |m| ==> m[i].0 in env.scripts
    ensures Ready(env) && ModulesFirst(env.f) && BareInModules(env.f, env.skip)
    ensures forall a :: a in env.f.nodes ==> Contains(env.skip, LocationOf(a)).Some?
  {
    BuiltIsClean(m, env.skip);
    hide Ops, ApplyAll, WellFormed, NonEmpty;
    forall a | a in env.f.nodes
      ensures Contains(env.skip, LocationOf(a)).Some?
      ensures Located(env, a) ==> env.f.nodes[a].locator.value in env.scripts
    {
      StoredLocatorsAreKeys(m, env.skip, a);
      if a.segs != [] { NonEmptyClean(a.root + a.segs); }
    }
    forall b | b in env.f.nodes && env.f.nodes[b].order != []
      ensures Outside(env.skip, b.root)
      ensures b.segs != [] ==> CleanPath(b.root) && CleanPath(b.segs) && b.segs[0] == NODE_MODULES
    {
      var s := env.f.nodes[b].order[0];
      ChildListed(env.f, b, s);
      StoredLocatorsAreKeys(m, env.skip, b);
      StoredLocatorsAreKeys(m, env.skip, b.Child(s));
    }
  }

  /** A location root in node_modules only comes from the mark of a SOFT package, and has no mount. */
  lemma {:induction false} InsideRootsAreSoft(m: LocatorMap, skip: Path, r: Path)
    requires AllInside(m, skip) && CleanPath(skip)
    requires IsRoot(ApplyAll(Ops(m, skip)), r) && skip <= r && "node_modules" in r[|skip|..]
    ensures ApplyAll(Ops(m, skip)).nodes[Addr(r, [])].link.SOFT?
  {
    hide Ops, ApplyAll;
    var ops, a := Ops(m, skip), Addr(r, []);
    LastWriteWins(ops, a);
    forall i | 0 <= i < |ops| && Touches(ops[i], a) ensures ops[i].Mark? {
      WriteShape(m, skip, ops[i]);
    }
    var i :| 0 <= i < |ops| && Touches(ops[i], a);
    assert Writes(ops[i], a);
    var j := LastWriteExists(ops, a, i);
    WritesTouches(ops[j], a);
  }

  lemma {:induction false} FrontierIsLocated(env: Env, a: Addr)
    requires Ready(env) && a in env.f.nodes
    ensures forall b :: b in FrontierKids(env, a, |env.f.nodes[a].order|) ==> b in env.f.nodes && Located(env, b)
    ensures FromKids(env, a, |env.f.nodes[a].order|) == Merged(env, FrontierKids(env, a, |env.f.nodes[a].order|))
  {
    FromKidsIsMerged(env, a, |env.f.nodes[a].order|);
  }

  /** The links of the nearest packages below a node, in insertion order, later ones winning. */
  ghost function LinksBelow(env: Env, a: Addr): Bins
    requires Ready(env) && a in env.f.nodes
  {
    FrontierIsLocated(env, a);
    Merged(env, FrontierKids(env, a, |env.f.nodes[a].order|))
  }

  /** The packages whose links LinksBelow merges are the nearest ones below the node. */
  lemma {:induction false} LinksAreOfNearest(env: Env, a: Addr, b: Addr)
    requires Ready(env) && a in env.f.nodes
    ensures b in FrontierKids(env, a, |env.f.nodes[a].order|)
            <==> exists s :: s in env.f.nodes[a].order && Nearest(env, a.Child(s), b)
  {
    hide Ready, Nearest;
    var order := env.f.nodes[a].order;
    FrontierKidsAre(env, a, |order|, b);
    assert order[..|order|] == order;
  }

  lemma {:induction false} HomeListed(env: Env, c: Addr)
    requires Ready(env) && HasKids(env, c)
    ensures c.root in env.f.order && c in env.f.nodes
  {
    ReadyForest(env);
    hide Distinct;
    assert [] + c.segs == c.segs;
    ParentsExist(env.f, c.root, [], c.segs);
  }

  /**
   The specification of the bin links, for every location root: the links of its nearest packages
   below, overridden by its own. A root outside node_modules, and so every root that has mounts,
   gets exactly these. A root inside node_modules may be the directory of a package in another
   root's tree; then that package's links from below are merged in as well, the root that comes
   later winning. The part from below does not depend on whether the root is a package itself.
   */
  lemma {:induction false} BinLinksSpecified(m: LocatorMap, env: Env, r: Path) returns (c: Option<Addr>)
    requires AllInside(m, env.skip) && CleanPath(env.skip) && env.f == ApplyAll(Ops(m, env.skip))
    requires forall i :: 0 <= i < |m| ==> m[i].0 in env.scripts
    requires r in env.f.order
    ensures Ready(env) && IsRoot(env.f, r) && (forall q :: q in env.f.order ==> IsRoot(env.f, q))
    ensures IsDirectory(env, c, r) && (c.Some? ==> c.value in env.f.nodes)
    ensures var a := Addr(r, []);
            var own := LinksBelow(env, a) + if Located(env, a) then Own(env, a) else map[];
            var outer := if HomeOf(c, r) != r && Located(env, c.value) then LinksBelow(env, c.value) else map[];
            Get(RootsTable(env, env.f.order), r) == InOrder(env.f.order, HomeOf(c, r), r, outer, own)
    ensures Outside(env.skip, r) ==> HomeOf(c, r) == r
  {
    BuiltTreeIsReady(m, env);
    hide Ops, ApplyAll, ModulesFirst, BareInModules, Outside, Located, Own;
    ReadyForest(env);
    RootsListed(env.f);
    c := DirectoryExists(env, r);
    RootEntry(env, c, env.f.order, r);
    FrontierIsLocated(env, Addr(r, []));
    if c.Some? {
      HomeListed(env, c.value);
      FrontierIsLocated(env, c.value);
    }
    if Outside(env.skip, r) { OutsideIsUnshared(env, c, r); }
  }

  // ----- The links in the daemon's input -----

  /** The packages that provide a root's links: the nearest ones below it, and itself. */
  function Providers(env: Env, r: Path): seq<Addr>
    requires Ready(env) && IsRoot(env.f, r)
  {
    var a := Addr(r, []);
    FrontierKids(env, a, |env.f.nodes[a].order|) + if Located(env, a) then [a] else []
  }

  lemma {:induction false} ProvidersMerged(env: Env, r: Path)
    requires Ready(env) && IsRoot(env.f, r)
    ensures forall p :: p in Providers(env, r) ==> p in env.f.nodes && Located(env, p)
    ensures var a := Addr(r, []);
            Merged(env, Providers(env, r)) == LinksBelow(env, a) + if Located(env, a) then Own(env, a) else map[]
  {
    hide Ready, Located, Own;
    var a := Addr(r, []);
    var below := FrontierKids(env, a, |env.f.nodes[a].order|);
    FrontierIsLocated(env, a);
    if Located(env, a) {
      assert (below + [a])[..|below|] == below;
    } else {
      assert below + [] == below;
      PlusAssoc(Merged(env, below), map[], map[]);
    }
  }

  lemma {:induction false} RootIsListed(f: Forest, r: Path)
    requires WellFormed(f) && IsRoot(f, r)
    ensures r in f.order
  {
  }

  /** A root that has mounts gets exactly the links of its providers. */
  lemma {:induction false} MountedRootEntry(m: LocatorMap, env: Env, r: Path)
    requires AllInside(m, env.skip) && CleanPath(env.skip) && env.f == ApplyAll(Ops(m, env.skip))
    requires forall i :: 0 <= i < |m| ==> m[i].0 in env.scripts
    requires IsRoot(env.f, r) && env.f.nodes[Addr(r, [])].link.HARD?
    ensures Ready(env) && (forall q :: q in env.f.order ==> IsRoot(env.f, q))
    ensures forall p :: p in Providers(env, r) ==> p in env.f.nodes && Located(env, p)
    ensures Get(RootsTable(env, env.f.order), r) == Merged(env, Providers(env, r))
  {
    BuiltTreeIsReady(m, env);
    ReadyForest(env);
    if !Outside(env.skip, r) {
      StoredLocatorsAreKeys(m, env.skip, Addr(r, []));
      InsideRootsAreSoft(m, env.skip, r);
    }
    RootIsListed(env.f, r);
    hide Ops, ApplyAll, Ready, Outside, Located, Own, LinksBelow, RootsTable;
    var c := BinLinksSpecified(m, env, r);
    ProvidersMerged(env, r);
    var a := Addr(r, []);
    PlusAssoc(LinksBelow(env, a) + if Located(env, a) then Own(env, a) else map[], map[], map[]);
  }

  /** One path of the bin directory of a mount. */
  lemma {:induction false} BinPathAt(f: Forest, bins: BinMap, r: Path, s: string, n: string)
    requires WellFormed(f) && CleanRoots(f) && IsMount(f, r, s)
    ensures var found := NodeAt(Mounts(f, bins, f.order), MountKey(r, s), [BIN, n]);
            var a := Addr(r, [s, BIN, n]);
            if n in Get(bins, r) then found == Some(BinLink(Get(bins, r)[n]))
            else
              && (found.Some? <==> a in f.nodes)
              && (found.Some? ==> found.value.link == f.nodes[a].link && found.value.target == f.nodes[a].target)
  {
    hide WellFormed, CleanRoots, Mounts, Mount, MountKey, BIN, Follow;
    MountAt(f, bins, r, s);
    FollowMount(f, bins, r, s, [BIN, n]);
    assert [s] + [BIN, n] == [s, BIN, n];
  }

  /** The node carries the key of a package. */
  predicate IsPackage(f: Forest, a: Addr) {
    a in f.nodes && f.nodes[a].locator.Some? && f.nodes[a].locator.value != ""
  }

  /** p is a package at or below the root that has a script n, with no package properly between. */
  ghost predicate Provides(env: Env, r: Path, p: Addr, n: string) {
    && IsPackage(env.f, p) && p.root == r
    && (forall c :: IsPackage(env.f, c) && c.root == r && c.segs < p.segs ==> c.segs == [])
    && env.f.nodes[p].locator.value in env.scripts && n in env.scripts[env.f.nodes[p].locator.value]
  }

  /** Below their deepest common ancestor, x stands under an earlier child than y. */
  ghost predicate EarlierAt(f: Forest, x: Addr, y: Addr, k: nat, i: nat, j: nat) {
    && k < |x.segs| && k < |y.segs| && x.segs[..k] == y.segs[..k] && Addr(x.root, x.segs[..k]) in f.nodes
    && var order := f.nodes[Addr(x.root, x.segs[..k])].order;
    i < j < |order| && order[i] == x.segs[k] && order[j] == y.segs[k]
  }

  /** Document order of the nodes of one root, the root itself being the last. */
  ghost predicate Earlier(f: Forest, x: Addr, y: Addr) {
    x.root == y.root && ((x.segs != [] && y.segs == []) || exists k: nat, i: nat, j: nat :: EarlierAt(f, x, y, k, i, j))
  }

  /** p is the last provider of n. */
  ghost predicate LastProvider(env: Env, r: Path, p: Addr, n: string) {
    Provides(env, r, p, n) && forall q :: Provides(env, r, q, n) && q != p ==> Earlier(env.f, q, p)
  }

  lemma {:induction false} SamePosition(f: Forest, a: Addr, i: nat, j: nat)
    requires WellFormed(f) && a in f.nodes
    requires i < |f.nodes[a].order| && j < |f.nodes[a].order| && f.nodes[a].order[i] == f.nodes[a].order[j]
    ensures i == j
  {
  }

  lemma {:induction false} PrefixAt(x: seq<string>, y: seq<string>, k: nat, i: nat)
    requires i < k <= |x| && k <= |y| && x[..k] == y[..k]
    ensures x[i] == y[i]
  {
    assert x[i] == x[..k][i] && y[i] == y[..k][i];
  }

  /** Two nodes part at one depth only. */
  lemma {:induction false} PartsNoLater(f: Forest, x: Addr, y: Addr, k: nat, i: nat, j: nat, k': nat)
    requires WellFormed(f) && EarlierAt(f, x, y, k, i, j)
    requires k' <= |x.segs| && k' <= |y.segs| && x.segs[..k'] == y.segs[..k']
    ensures k' <= k
  {
    hide WellFormed;
    var a := Addr(x.root, x.segs[..k]);
    if k < k' {
      PrefixAt(x.segs, y.segs, k', k);
      SamePosition(f, a, i, j);
    }
  }

  lemma {:induction false} PartsOnce(f: Forest, x: Addr, y: Addr, k: nat, i: nat, j: nat, i': nat, j': nat)
    requires WellFormed(f) && x.root == y.root && EarlierAt(f, x, y, k, i, j)
    ensures !EarlierAt(f, y, x, k, i', j')
  {
    hide WellFormed;
    var a := Addr(x.root, x.segs[..k]);
    if EarlierAt(f, y, x, k, i', j') {
      SamePosition(f, a, i, j');
      SamePosition(f, a, j, i');
    }
  }

  lemma {:induction false} EarlierOneWay(f: Forest, x: Addr, y: Addr)
    requires WellFormed(f) && Earlier(f, x, y)
    ensures !Earlier(f, y, x)
  {
    hide WellFormed;
    if Earlier(f, y, x) {
      var k: nat, i: nat, j: nat :| EarlierAt(f, x, y, k, i, j);
      var k': nat, i': nat, j': nat :| EarlierAt(f, y, x, k', i', j');
      PartsNoLater(f, x, y, k, i, j, k');
      PartsNoLater(f, y, x, k', i', j', k);
      PartsOnce(f, x, y, k, i, j, i', j');
    }
  }

  /** The packages of a list stand in document order. */
  ghost predicate InDocumentOrder(f: Forest, packages: seq<Addr>) {
    forall x: nat, y: nat :: x < y < |packages| ==> Earlier(f, packages[x], packages[y])
  }

  /** The nearest packages below a node are met in document order. */
  lemma {:induction false} FrontierInOrder(env: Env, a: Addr)
    requires Ready(env) && a in env.f.nodes
    ensures InDocumentOrder(env.f, Frontier(env, a))
    decreases Depth(env.f) - |a.segs|, 1, 0
  {
    hide Ready, Located, Depth, Earlier;
    if !Located(env, a) { FrontierKidsInOrder(env, a, |env.f.nodes[a].order|); }
  }

  lemma {:induction false} KidsApart(env: Env, a: Addr, i: nat, x: Addr, y: Addr)
    requires Ready(env) && a in env.f.nodes && 1 <= i <= |env.f.nodes[a].order|
    requires x in FrontierKids(env, a, i - 1)
    requires a.Child(env.f.nodes[a].order[i - 1]) in env.f.nodes
    requires y in Frontier(env, a.Child(env.f.nodes[a].order[i - 1]))
    ensures Earlier(env.f, x, y)
  {
    hide Ready, Located, Frontier, FrontierKids, Depth;
    var order := env.f.nodes[a].order;
    FrontierIsNearest(env, a.Child(order[i - 1]), y);
    FrontierKidsAre(env, a, i - 1, x);
    var s :| s in order[..i - 1] && Nearest(env, a.Child(s), x);
    var h :| 0 <= h < i - 1 && order[h] == s;
    ChildSegs(a, s, x.segs);
    ChildSegs(a, order[i - 1], y.segs);
    assert x.segs[..|a.segs|] == a.segs == y.segs[..|a.segs|];
    assert EarlierAt(env.f, x, y, |a.segs|, h, i - 1);
  }

  lemma {:induction false} FrontierKidsInOrder(env: Env, a: Addr, i: nat)
    requires Ready(env) && a in env.f.nodes && i <= |env.f.nodes[a].order|
    ensures InDocumentOrder(env.f, FrontierKids(env, a, i))
    decreases Depth(env.f) - |a.segs|, 0, i
  {
    hide Ready, Located, Depth, Earlier, Frontier, FrontierKids;
    if i == 0 {
      NoKidsExport(env, a);
    } else {
      ExportStep(env, a, i);
      var c := a.Child(env.f.nodes[a].order[i - 1]);
      var some, more := FrontierKids(env, a, i - 1), Frontier(env, c);
      FrontierKidsInOrder(env, a, i - 1);
      FrontierInOrder(env, c);
      forall x: nat, y: nat | x < y < |some + more| ensures Earlier(env.f, (some + more)[x], (some + more)[y]) {
        if x < |some| <= y {
          assert some[x] in some && more[y - |some|] in more;
          KidsApart(env, a, i, some[x], more[y - |some|]);
        } else if |some| <= x {
          assert Earlier(env.f, more[x - |some|], more[y - |some|]);
        }
      }
    }
  }

  /** In a built tree the packages are exactly the nodes whose scripts are linked. */
  ghost predicate PackagesLocated(env: Env) {
    forall a :: a in env.f.nodes ==> (Located(env, a) <==> IsPackage(env.f, a))
  }

  lemma {:induction false} PackageIsNode(f: Forest, a: Addr)
    requires IsPackage(f, a)
    ensures a in f.nodes
  {
  }

  lemma {:induction false} BelowRoot(env: Env, r: Path, p: Addr)
    requires Ready(env) && IsRoot(env.f, r) && PackagesLocated(env)
    ensures p in FrontierKids(env, Addr(r, []), |env.f.nodes[Addr(r, [])].order|)
            <==> IsPackage(env.f, p) && p.root == r && p.segs != []
                 && forall c :: IsPackage(env.f, c) && c.root == r && c.segs < p.segs ==> c.segs == []
  {
    var a := Addr(r, []);
    LinksAreOfNearest(env, a, p);
    hide FrontierKids, Located, IsPackage;
    var order := env.f.nodes[a].order;
    if s :| s in order && Nearest(env, a.Child(s), p) {
      ChildSegs(a, s, p.segs);
      forall c | IsPackage(env.f, c) && c.root == r && c.segs < p.segs ensures c.segs == [] {
        PackageIsNode(env.f, c);
        if c.segs != [] { ChildSegs(a, s, c.segs); }
      }
    }
    if IsPackage(env.f, p) && p.root == r && p.segs != []
       && forall c :: IsPackage(env.f, c) && c.root == r && c.segs < p.segs ==> c.segs == []
    {
      PackageIsNode(env.f, p);
      ReadyForest(env);
      ChildTowards(env, a, p);
      var s := p.segs[0];
      ChildSegs(a, s, p.segs);
      assert Nearest(env, a.Child(s), p);
    }
  }

  lemma {:induction false} ProviderMembers(env: Env, r: Path, p: Addr)
    requires Ready(env) && IsRoot(env.f, r)
    ensures p in Providers(env, r)
            <==> p in FrontierKids(env, Addr(r, []), |env.f.nodes[Addr(r, [])].order|)
                 || (p == Addr(r, []) && Located(env, p))
  {
    hide FrontierKids, Ready, Located;
  }

  lemma {:induction false} ProvidersAre(env: Env, r: Path, p: Addr, n: string)
    requires Ready(env) && IsRoot(env.f, r) && PackagesLocated(env)
    ensures Provides(env, r, p, n)
            <==> p in Providers(env, r) && p in env.f.nodes && Located(env, p) && n in Own(env, p)
  {
    BelowRoot(env, r, p);
    hide FrontierKids, WellFormed, JoinScript, LocationOf;
    ProviderMembers(env, r, p);
  }

  lemma {:induction false} ProvidersInOrder(env: Env, r: Path)
    requires Ready(env) && IsRoot(env.f, r) && PackagesLocated(env)
    ensures InDocumentOrder(env.f, Providers(env, r))
  {
    var a := Addr(r, []);
    var below := FrontierKids(env, a, |env.f.nodes[a].order|);
    FrontierKidsInOrder(env, a, |env.f.nodes[a].order|);
    forall p | p in below ensures p.root == r && p.segs != [] {
      BelowRoot(env, r, p);
    }
    hide FrontierKids, Ready, Located;
  }

  lemma {:induction false} OthersEarlier(env: Env, packages: seq<Addr>, n: string, k: int, q: Addr)
    requires Ready(env) && forall p :: p in packages ==> p in env.f.nodes && Located(env, p)
    requires InDocumentOrder(env.f, packages) && LastWith(env, packages, n, k)
    requires q in packages && n in Own(env, q) && q != packages[k]
    ensures Earlier(env.f, q, packages[k])
  {
    hide Ready, Located, Own, Earlier;
    var y: nat :| y < |packages| && packages[y] == q;
    assert y < k;
  }

  /** The last provider is the last one of the list that has the script. */
  lemma {:induction false} LastWithIsLast(env: Env, r: Path, n: string, k: int)
    requires Ready(env) && IsRoot(env.f, r) && PackagesLocated(env)
    requires forall p :: p in Providers(env, r) ==> p in env.f.nodes && Located(env, p)
    requires LastWith(env, Providers(env, r), n, k)
    ensures LastProvider(env, r, Providers(env, r)[k], n)
  {
    var packages := Providers(env, r);
    hide Ready, Located, Own, Providers, IsRoot, PackagesLocated, Provides, Earlier, InDocumentOrder;
    ProvidersInOrder(env, r);
    forall q | Provides(env, r, q, n) && q != packages[k] ensures Earlier(env.f, q, packages[k]) {
      ProvidersAre(env, r, q, n);
      OthersEarlier(env, packages, n, k, q);
    }
    assert packages[k] in packages;
    ProvidersAre(env, r, packages[k], n);
  }

  lemma {:induction false} LastWithExists(env: Env, packages: seq<Addr>, p: Addr, n: string) returns (k: nat)
    requires Ready(env) && forall p :: p in packages ==> p in env.f.nodes && Located(env, p)
    requires p in packages && n in Own(env, p)
    ensures LastWith(env, packages, n, k)
  {
    hide Ready, Located, Own;
    k := |packages|;
    while k > 0 && n !in Own(env, packages[k - 1])
      invariant k <= |packages| && forall i :: k <= i < |packages| ==> n !in Own(env, packages[i])
    {
      k := k - 1;
    }
    k := k - 1;
  }

  lemma {:induction false} LastProviderIs(env: Env, r: Path, p: Addr, n: string) returns (k: nat)
    requires Ready(env) && IsRoot(env.f, r) && PackagesLocated(env) && Provides(env, r, p, n)
    requires forall p :: p in Providers(env, r) ==> p in env.f.nodes && Located(env, p)
    ensures LastWith(env, Providers(env, r), n, k)
    ensures LastProvider(env, r, p, n) ==> p == Providers(env, r)[k]
  {
    ReadyForest(env);
    hide Ready, Located, Own, Providers, IsRoot, PackagesLocated, Provides, Earlier, WellFormed;
    var packages := Providers(env, r);
    ProvidersAre(env, r, p, n);
    k := LastWithExists(env, packages, p, n);
    LastWithIsLast(env, r, n, k);
    if LastProvider(env, r, p, n) && p != packages[k] { EarlierOneWay(env.f, p, packages[k]); }
  }

  lemma {:induction false} NoProviderNoLink(env: Env, r: Path, n: string)
    requires Ready(env) && IsRoot(env.f, r) && PackagesLocated(env) && forall p :: !Provides(env, r, p, n)
    requires forall p :: p in Providers(env, r) ==> p in env.f.nodes && Located(env, p)
    ensures n !in Merged(env, Providers(env, r))
  {
    hide Ready, Located, Own, Providers, IsRoot, PackagesLocated, Provides, Merged;
    var packages := Providers(env, r);
    MergedIsLast(env, packages, n);
    forall k ensures !LastWith(env, packages, n, k) {
      if LastWith(env, packages, n, k) {
        assert packages[k] in packages;
        ProvidersAre(env, r, packages[k], n);
      }
    }
  }

  /** The script n of a provider. */
  ghost function ScriptOf(env: Env, r: Path, p: Addr, n: string): seq<string>
    requires Provides(env, r, p, n)
  {
    env.scripts[env.f.nodes[p].locator.value][n]
  }

  /** A provider's link is its script, joined to its location in the project. */
  lemma {:induction false} ProviderTarget(m: LocatorMap, env: Env, r: Path, s: string, p: Addr, n: string)
    requires AllInside(m, env.skip) && CleanPath(env.skip) && env.f == ApplyAll(Ops(m, env.skip))
    requires IsMount(env.f, r, s) && Ready(env) && Provides(env, r, p, n) && Located(env, p)
    ensures CleanPath(p.root + p.segs)
    ensures n in Own(env, p) && Own(env, p)[n] == JoinScript(p.root + p.segs, ScriptOf(env, r, p, n))
  {
    hide Ops, ApplyAll, WellFormed, JoinScript, NonEmpty;
    BuiltIsClean(m, env.skip);
    assert CleanPath(r) by { assert Addr(r, [s]).segs != []; }
    StoredLocatorsAreKeys(m, env.skip, p);
    if p.segs == [] {
      assert p.root + p.segs == p.root;
    } else {
      NonEmptyClean(p.root + p.segs);
    }
  }

  lemma {:induction false} BuiltPackages(m: LocatorMap, env: Env)
    requires AllInside(m, env.skip) && CleanPath(env.skip) && env.f == ApplyAll(Ops(m, env.skip))
    requires forall i :: 0 <= i < |m| ==> m[i].0 in env.scripts
    ensures PackagesLocated(env)
  {
    BuiltTreeIsReady(m, env);
    hide Ops, ApplyAll, LocationOf, Ready, ModulesFirst, BareInModules;
  }

  /** The merged links hold the last provider's. */
  lemma {:induction false} MergedProvider(env: Env, r: Path, p: Addr, n: string)
    requires Ready(env) && IsRoot(env.f, r) && PackagesLocated(env) && Provides(env, r, p, n)
    requires forall q :: q in Providers(env, r) ==> q in env.f.nodes && Located(env, q)
    ensures exists q :: LastProvider(env, r, q, n)
    ensures p in env.f.nodes && Located(env, p) && n in Own(env, p)
    ensures LastProvider(env, r, p, n) ==>
              n in Merged(env, Providers(env, r)) && Merged(env, Providers(env, r))[n] == Own(env, p)[n]
  {
    hide Ready, Located, Own, Providers, IsRoot, PackagesLocated, Provides, Merged, LastProvider;
    var k := LastProviderIs(env, r, p, n);
    LastWithIsLast(env, r, n, k);
    MergedIsLast(env, Providers(env, r), n);
    ProvidersAre(env, r, p, n);
  }

  lemma {:induction false} OneName(name: string)
    requires name != "" && name != "." && name != ".."
    ensures PlainNames([name])
  {
  }

  lemma {:induction false} ServedByLast(m: LocatorMap, env: Env, r: Path, s: string, n: string, p: Addr)
    requires AllInside(m, env.skip) && CleanPath(env.skip) && env.f == ApplyAll(Ops(m, env.skip))
    requires forall i :: 0 <= i < |m| ==> m[i].0 in env.scripts
    requires IsMount(env.f, r, s) && Provides(env, r, p, n)
    ensures Ready(env) && (forall q :: q in env.f.order ==> IsRoot(env.f, q))
    ensures exists q :: LastProvider(env, r, q, n)
    ensures var script := ScriptOf(env, r, p, n);
            LastProvider(env, r, p, n) ==>
              && NodeAt(Compile(m, env.skip, RootsTable(env, env.f.order)), MountKey(r, s), [".bin", n])
                 == Some(FuseNode(SOFT, Some(JoinScript(p.root + p.segs, script)), map[]))
              && (PlainNames(script) ==> JoinScript(p.root + p.segs, script) == p.root + p.segs + script)
  {
    MountedRootEntry(m, env, r);
    BuiltIsClean(m, env.skip);
    BuiltPackages(m, env);
    hide Ops, ApplyAll, Ready, WellFormed, CleanRoots, Located, Own, RootsTable, Providers, Mounts, MountKey, NodeAt,
         IsMount, Merged, Get, JoinScript, PackagesLocated, LastProvider, Provides, ScriptOf, PlainNames;
    MergedProvider(env, r, p, n);
    ProviderTarget(m, env, r, s, p, n);
    OneName("a");
    ScriptResolves(p.root + p.segs, [], ScriptOf(env, r, p, n), "a");
    BinPathAt(env.f, RootsTable(env, env.f.order), r, s, n);
  }

  /**
   The plugin's whole output for bin links. A package provides its scripts in every mount of its root,
   if no other package but the root itself is above it. The path .bin/n of the mount is the SOFT link to
   the script n of the last provider in document order, the root being the last of all; if none has
   such a script, there is only what the location tree itself has at that path.
   */
  lemma {:induction false} BinLinkServed(m: LocatorMap, env: Env, r: Path, s: string, n: string)
    requires AllInside(m, env.skip) && CleanPath(env.skip) && env.f == ApplyAll(Ops(m, env.skip))
    requires forall i :: 0 <= i < |m| ==> m[i].0 in env.scripts
    requires IsMount(env.f, r, s)
    ensures Ready(env) && (forall q :: q in env.f.order ==> IsRoot(env.f, q))
    ensures var found := NodeAt(Compile(m, env.skip, RootsTable(env, env.f.order)), MountKey(r, s), [".bin", n]);
            && ((exists p :: Provides(env, r, p, n)) ==> exists p :: LastProvider(env, r, p, n))
            && (forall p :: LastProvider(env, r, p, n) ==>
                  var script := ScriptOf(env, r, p, n);
                  && found == Some(FuseNode(SOFT, Some(JoinScript(p.root + p.segs, script)), map[]))
                  && (PlainNames(script) ==> JoinScript(p.root + p.segs, script) == p.root + p.segs + script))
            && ((forall p :: !Provides(env, r, p, n)) ==>
                  (found.Some? <==> Addr(r, [s, ".bin", n]) in env.f.nodes)
                  && (found.Some? ==> found.value.link == env.f.nodes[Addr(r, [s, ".bin", n])].link
                                      && found.value.target == env.f.nodes[Addr(r, [s, ".bin", n])].target))
  {
    MountedRootEntry(m, env, r);
    BuiltIsClean(m, env.skip);
    hide Ops, ApplyAll, Ready, WellFormed, CleanRoots, Located, Own, RootsTable, Providers, Mounts, MountKey, NodeAt,
         LastWith, IsMount, Merged, Get, JoinScript, PackagesLocated, Provides, PlainNames;
    forall p | Provides(env, r, p, n)
    {
      ServedByLast(m, env, r, s, n, p);
    }
    if forall p :: !Provides(env, r, p, n) {
      BuiltPackages(m, env);
      NoProviderNoLink(env, r, n);
      BinPathAt(env.f, RootsTable(env, env.f.order), r, s, n);
    }
  }
}
