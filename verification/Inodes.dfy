/**
 Allocation of inode numbers. Every call hands out a block of INO_STEP numbers, except that equal
 non-empty HARD targets share the block of their first request and count generations instead.

 The allocator is an object; what it must answer is given in closed form over the log of requests.
 */
module Inodes {
  import opened FuseTypes
  import opened NestedIndex
  import opened ZipIndex

  const INO_STEP := 1_000_000_000

  /** With this many blocks every number of every block still fits in uint64. */
  const MAX_BLOCKS := 18_446_744_072

  /** With one block more the numbers that wrap around are still used by nothing else. */
  const DISJOINT_BLOCKS := MAX_BLOCKS + 1

  datatype InoGen = InoGen(ino: nat, gen: nat)

  datatype Req = Req(link: LinkType, target: string)

  predicate Cached(r: Req) {
    r.link.HARD? && r.target != ""
  }

  // ----- What the log determines -----

  /** Request i takes a new block. */
  predicate Fresh(reqs: seq<Req>, i: nat)
    requires i < |reqs|
  {
    Cached(reqs[i]) ==> forall k :: 0 <= k < i ==> reqs[k] != reqs[i]
  }

  /** How many blocks the requests take. */
  function Blocks(reqs: seq<Req>): nat {
    if reqs == [] then 0
    else Blocks(reqs[..|reqs| - 1]) + if Fresh(reqs, |reqs| - 1) then 1 else 0
  }

  function FirstIndex(reqs: seq<Req>, r: Req): (f: nat)
    requires r in reqs
    ensures f < |reqs| && reqs[f] == r
    ensures forall k :: 0 <= k < f ==> reqs[k] != r
  {
    if reqs[0] == r then 0 else 1 + FirstIndex(reqs[1..], r)
  }

  /** The request whose block request i uses. */
  function Origin(reqs: seq<Req>, i: nat): (f: nat)
    requires i < |reqs|
    ensures f <= i && reqs[f] == reqs[i] && Fresh(reqs, f)
    ensures !Cached(reqs[i]) ==> f == i
  {
    if Cached(reqs[i]) then FirstIndex(reqs, reqs[i]) else i
  }

  function Count(reqs: seq<Req>, r: Req): nat {
    if reqs == [] then 0
    else Count(reqs[..|reqs| - 1], r) + if reqs[|reqs| - 1] == r then 1 else 0
  }

  /** The number of the block request i uses, counting from 1. */
  function Block(reqs: seq<Req>, i: nat): nat
    requires i < |reqs|
  {
    Blocks(reqs[..Origin(reqs, i) + 1])
  }

  /** The uint64 that x becomes. */
  function Wrap(x: nat): (r: nat)
    ensures r < TWO_64
    ensures x < TWO_64 ==> r == x
  {
    x % TWO_64
  }

  lemma {:induction false} WrapAdd(x: nat, y: nat)
    ensures Wrap(Wrap(x) + y) == Wrap(x + y)
  {
  }

  function InoOfBlock(b: nat): nat {
    Wrap(INO_STEP * b)
  }

  /** What request i is answered. */
  function Assigned(reqs: seq<Req>, i: nat): InoGen
    requires i < |reqs|
  {
    InoGen(InoOfBlock(Block(reqs, i)),
           if Cached(reqs[i]) then Wrap(Count(reqs[..i + 1], reqs[i])) else 1)
  }

  /** What the cache holds for a target that was requested. */
  function Cell(reqs: seq<Req>, target: string): InoGen {
    var r := Req(HARD, target);
    if r in reqs
    then InoGen(InoOfBlock(Blocks(reqs[..FirstIndex(reqs, r) + 1])), Wrap(Count(reqs, r)))
    else InoGen(0, 0)
  }

  /** The cached targets of a log. */
  function Targets(reqs: seq<Req>): set<string> {
    set i | 0 <= i < |reqs| && Cached(reqs[i]) :: reqs[i].target
  }

  function CacheOf(reqs: seq<Req>): map<string, InoGen> {
    map t | t in Targets(reqs) :: Cell(reqs, t)
  }

  lemma {:induction false} TargetsStep(reqs: seq<Req>, r: Req)
    ensures Targets(reqs + [r]) == Targets(reqs) + if Cached(r) then {r.target} else {}
    ensures r.target in Targets(reqs) <==> r.target != "" && Req(HARD, r.target) in reqs
  {
    var log := reqs + [r];
    assert log[|reqs|] == r && forall i :: 0 <= i < |reqs| ==> log[i] == reqs[i];
    forall t ensures t in Targets(log) <==> t in Targets(reqs) || (Cached(r) && t == r.target) {
      if i :| 0 <= i < |reqs| && Cached(reqs[i]) && reqs[i].target == t { assert Cached(log[i]) && log[i].target == t; }
      if Cached(r) && t == r.target { assert Cached(log[|reqs|]) && log[|reqs|].target == t; }
    }
  }

  // ----- The allocator -----

  /** The cache and the counter hold what the log of requests determines. */
  ghost predicate Tracks(m: map<string, InoGen>, lastIno: nat, log: seq<Req>) {
    lastIno == InoOfBlock(Blocks(log)) && m == CacheOf(log)
  }

  lemma {:induction false} CellKept(reqs: seq<Req>, r: Req, target: string)
    requires r != Req(HARD, target)
    ensures Cell(reqs + [r], target) == Cell(reqs, target)
  {
    hide Blocks;
    var t := Req(HARD, target);
    var log := reqs + [r];
    assert log[..|reqs|] == reqs;
    if t in reqs {
      assert log[FirstIndex(reqs, t)] == t;
      assert log[..FirstIndex(reqs, t) + 1] == reqs[..FirstIndex(reqs, t) + 1];
    }
  }

  lemma {:induction false} CacheStep(log: seq<Req>, r: Req)
    ensures CacheOf(log + [r])
            == if Cached(r) then CacheOf(log)[r.target := Cell(log + [r], r.target)] else CacheOf(log)
  {
    hide Blocks, Cell, Targets, Wrap, InoOfBlock;
    TargetsStep(log, r);
    forall t | t in Targets(log) && (t != r.target || !Cached(r)) ensures Cell(log + [r], t) == Cell(log, t) {
      CellKept(log, r, t);
    }
  }

  lemma {:induction false} CellAssigned(reqs: seq<Req>, target: string)
    requires target != ""
    ensures Cell(reqs + [Req(HARD, target)], target) == Assigned(reqs + [Req(HARD, target)], |reqs|)
  {
    hide Blocks, Count, FirstIndex;
    var log := reqs + [Req(HARD, target)];
    assert log[..|log|] == log && log[|reqs|] == Req(HARD, target);
  }

  lemma {:induction false} BlocksStep(log: seq<Req>, r: Req)
    ensures Blocks(log + [r]) == Blocks(log) + if Cached(r) && r in log then 0 else 1
  {
    assert (log + [r])[..|log|] == log;
    assert Fresh(log + [r], |log|) <==> !(Cached(r) && r in log);
  }

  lemma {:induction false} CountStep(log: seq<Req>, x: Req, r: Req)
    ensures Count(log + [x], r) == Count(log, r) + if x == r then 1 else 0
  {
    assert (log + [x])[..|log|] == log;
  }

  lemma {:induction false} FirstIndexKept(reqs: seq<Req>, x: Req, r: Req)
    requires r in reqs
    ensures FirstIndex(reqs + [x], r) == FirstIndex(reqs, r)
  {
    hide FirstIndex;
    assert (reqs + [x])[FirstIndex(reqs, r)] == r;
  }

  /** A repeated request for a cached target: no new block, the next generation. */
  lemma {:induction false} CellAgain(reqs: seq<Req>, target: string)
    requires target != "" && Req(HARD, target) in reqs
    ensures var log := reqs + [Req(HARD, target)];
            && Blocks(log) == Blocks(reqs)
            && Cell(log, target) == Cell(reqs, target).(gen := Wrap(Cell(reqs, target).gen + 1))
  {
    hide Blocks, FirstIndex, Wrap, Count, InoOfBlock;
    var r := Req(HARD, target);
    var log := reqs + [r];
    BlocksStep(reqs, r);
    CountStep(reqs, r, r);
    FirstIndexKept(reqs, r, r);
    WrapAdd(Count(reqs, r), 1);
    var f := FirstIndex(reqs, r);
    assert log[..f + 1] == reqs[..f + 1];
  }

  lemma {:induction false} TracksAgain(m: map<string, InoGen>, lastIno: nat, log: seq<Req>, target: string)
    requires Tracks(m, lastIno, log) && target in m
    ensures var r := m[target].(gen := Wrap(m[target].gen + 1));
            && Tracks(m[target := r], lastIno, log + [Req(HARD, target)])
            && r == Assigned(log + [Req(HARD, target)], |log|)
  {
    hide Blocks, Cell, InoOfBlock, Assigned, Wrap, Targets;
    TargetsStep(log, Req(HARD, target));
    CacheStep(log, Req(HARD, target));
    CellAgain(log, target);
    CellAssigned(log, target);
  }

  lemma {:induction false} NextBlock(b: nat)
    ensures InoOfBlock(b + 1) == Wrap(InoOfBlock(b) + INO_STEP)
  {
    WrapAdd(INO_STEP * b, INO_STEP);
  }

  lemma {:induction false} CountAbsent(reqs: seq<Req>, r: Req)
    requires r !in reqs
    ensures Count(reqs, r) == 0
  {
    if reqs != [] { CountAbsent(reqs[..|reqs| - 1], r); }
  }

  /** A first request for a cached target: a new block, generation 1. */
  lemma {:induction false} CellNew(reqs: seq<Req>, target: string)
    requires target != "" && Req(HARD, target) !in reqs
    ensures var log := reqs + [Req(HARD, target)];
            Blocks(log) == Blocks(reqs) + 1 && Cell(log, target) == InoGen(InoOfBlock(Blocks(log)), 1)
  {
    var r := Req(HARD, target);
    var log := reqs + [r];
    assert log[..|reqs|] == reqs && log[..|log|] == log;
    assert Blocks(log) == Blocks(reqs) + 1;
    hide Blocks, FirstIndex;
    CountAbsent(reqs, r);
    assert Count(log, r) == 1;
    assert FirstIndex(log, r) == |reqs|;
  }

  lemma {:induction false} TracksNew(m: map<string, InoGen>, lastIno: nat, log: seq<Req>, target: string)
    requires Tracks(m, lastIno, log) && target != "" && target !in m
    ensures var r := InoGen(Wrap(lastIno + INO_STEP), 1);
            && Tracks(m[target := r], r.ino, log + [Req(HARD, target)])
            && r == Assigned(log + [Req(HARD, target)], |log|)
  {
    hide Blocks, Cell, InoOfBlock, Assigned, Wrap, Targets;
    TargetsStep(log, Req(HARD, target));
    CacheStep(log, Req(HARD, target));
    CellNew(log, target);
    CellAssigned(log, target);
    NextBlock(Blocks(log));
  }

  lemma {:induction false} PlainStep(reqs: seq<Req>, r: Req)
    requires !Cached(r)
    ensures var log := reqs + [r];
            && Blocks(log) == Blocks(reqs) + 1
            && Assigned(log, |reqs|) == InoGen(InoOfBlock(Blocks(log)), 1)
  {
    var log := reqs + [r];
    assert log[..|reqs|] == reqs && log[..|log|] == log;
  }

  lemma {:induction false} TracksPlain(m: map<string, InoGen>, lastIno: nat, log: seq<Req>, r: Req)
    requires Tracks(m, lastIno, log) && !Cached(r)
    ensures Tracks(m, Wrap(lastIno + INO_STEP), log + [r])
    ensures InoGen(Wrap(lastIno + INO_STEP), 1) == Assigned(log + [r], |log|)
  {
    hide Blocks, Cell, InoOfBlock, Assigned, Wrap, Targets;
    CacheStep(log, r);
    PlainStep(log, r);
    NextBlock(Blocks(log));
  }

  class InodeAllocator {
    var m: map<string, InoGen>
    var lastIno: nat
    ghost var log: seq<Req>

    /** The fields are the closed form of the log. */
    ghost predicate Valid()
      reads this
    {
      Tracks(m, lastIno, log)
    }

    constructor ()
      ensures Valid() && log == [] && lastIno == 0
    {
      m, lastIno, log := map[], 0, [];
    }

    method GetInoStart(link: LinkType, target: string) returns (r: InoGen)
      requires Valid()
      modifies this
      ensures Valid() && log == old(log) + [Req(link, target)]
      ensures r == Assigned(log, |log| - 1)
    {
      hide Assigned, Wrap, Blocks, CacheOf, InoOfBlock;
      log := log + [Req(link, target)];
      if link == HARD && target != "" {
        if target in m {
          TracksAgain(m, lastIno, old(log), target);
          r := m[target];
          r := r.(gen := Wrap(r.gen + 1));
          m := m[target := r];
        } else {
          TracksNew(m, lastIno, old(log), target);
          lastIno := Wrap(lastIno + INO_STEP);
          r := InoGen(lastIno, 1);
          m := m[target := r];
        }
      } else {
        TracksPlain(m, lastIno, old(log), Req(link, target));
        lastIno := Wrap(lastIno + INO_STEP);
        r := InoGen(lastIno, 1);
      }
    }
  }

  // ----- Blocks are disjoint -----

  lemma {:induction false} BlocksGrow(reqs: seq<Req>, i: nat, j: nat)
    requires i <= j <= |reqs|
    ensures Blocks(reqs[..i]) <= Blocks(reqs[..j])
    ensures i < j && Fresh(reqs, j - 1) ==> Blocks(reqs[..i]) < Blocks(reqs[..j])
    decreases j
  {
    if i < j {
      assert reqs[..j][..j - 1] == reqs[..j - 1];
      BlocksGrow(reqs, i, j - 1);
    }
  }

  lemma {:induction false} FirstBlock(reqs: seq<Req>)
    requires reqs != []
    ensures Blocks(reqs[..1]) == 1
  {
    assert reqs[..1][..0] == [];
    assert Fresh(reqs[..1], 0);
  }

  lemma {:induction false} BlockRange(reqs: seq<Req>, i: nat)
    requires i < |reqs|
    ensures 1 <= Block(reqs, i) <= Blocks(reqs)
  {
    hide FirstIndex, Fresh;
    var f := Origin(reqs, i);
    FirstBlock(reqs);
    if f > 0 { BlocksGrow(reqs, 1, f + 1); }
    BlocksGrow(reqs, f + 1, |reqs|);
    assert reqs[..|reqs|] == reqs;
    hide Blocks;
  }

  /** Two requests share a block exactly when they are the same request for a cached target. */
  lemma {:induction false} BlockShared(reqs: seq<Req>, i: nat, j: nat)
    requires i < |reqs| && j < |reqs|
    ensures Block(reqs, i) == Block(reqs, j)
            <==> i == j || (reqs[i].link.HARD? && reqs[i].target != "" && reqs[i] == reqs[j])
  {
    hide Blocks, FirstIndex;
    var f, g := Origin(reqs, i), Origin(reqs, j);
    if f < g {
      BlocksGrow(reqs, f + 1, g + 1);
    } else if g < f {
      BlocksGrow(reqs, g + 1, f + 1);
    }
  }

  lemma {:induction false} CountGrows(reqs: seq<Req>, r: Req, i: nat, j: nat)
    requires i <= j <= |reqs|
    ensures Count(reqs[..i], r) <= Count(reqs[..j], r) <= Count(reqs[..i], r) + (j - i)
    ensures i < j && reqs[j - 1] == r ==> Count(reqs[..i], r) < Count(reqs[..j], r)
    decreases j
  {
    if i < j {
      assert reqs[..j][..j - 1] == reqs[..j - 1];
      CountGrows(reqs, r, i, j - 1);
    }
  }

  lemma {:induction false} InoOfBlockExact(b: nat)
    requires b <= DISJOINT_BLOCKS
    ensures InoOfBlock(b) == INO_STEP * b
    ensures b <= MAX_BLOCKS ==> INO_STEP * b + INO_STEP <= TWO_64
  {
  }

  lemma {:induction false} InosApart(reqs: seq<Req>, i: nat, j: nat)
    requires i < |reqs| && j < |reqs| && Blocks(reqs) <= DISJOINT_BLOCKS
    ensures Block(reqs, i) == Block(reqs, j) <==> Assigned(reqs, i).ino == Assigned(reqs, j).ino
    ensures Block(reqs, i) < Block(reqs, j) ==> Assigned(reqs, i).ino + INO_STEP <= Assigned(reqs, j).ino
  {
    BlockRange(reqs, i);
    BlockRange(reqs, j);
    InoOfBlockExact(Block(reqs, i));
    InoOfBlockExact(Block(reqs, j));
    hide Block, InoOfBlock, Wrap, Origin, Blocks, Count;
  }

  /** The k-th request for one cached target, counting from 1, has generation k. */
  lemma {:induction false} GenerationsCount(reqs: seq<Req>, i: nat)
    requires i < |reqs| < TWO_64 && reqs[i].link.HARD? && reqs[i].target != ""
    ensures Assigned(reqs, i).gen == 1 + Count(reqs[..i], reqs[i])
  {
    CountGrows(reqs, reqs[i], 0, i + 1);
    assert reqs[..i + 1][..i] == reqs[..i];
    assert Count(reqs[..i + 1], reqs[i]) == Count(reqs[..i], reqs[i]) + 1;
    hide Block, InoOfBlock, Count;
  }

  /**
   Over a whole run of at most DISJOINT_BLOCKS blocks no two requests get the same (ino, gen) pair, requests
   for one cached target share their ino with increasing generations, and any other two requests
   are at least a block apart.
   */
  lemma {:induction false} IdentitiesUnique(reqs: seq<Req>, i: nat, j: nat)
    requires i < j < |reqs| && |reqs| < TWO_64 && Blocks(reqs) <= DISJOINT_BLOCKS
    ensures Assigned(reqs, i) != Assigned(reqs, j)
    ensures var x, y := Assigned(reqs, i), Assigned(reqs, j);
            if reqs[i].link.HARD? && reqs[i].target != "" && reqs[i] == reqs[j] then x.ino == y.ino && x.gen < y.gen
            else x.ino + INO_STEP <= y.ino || y.ino + INO_STEP <= x.ino
  {
    hide Block, InoOfBlock, Wrap, Origin, Blocks, Count, Assigned;
    BlockShared(reqs, i, j);
    InosApart(reqs, i, j);
    InosApart(reqs, j, i);
    if Cached(reqs[i]) && reqs[i] == reqs[j] {
      GenerationsCount(reqs, i);
      GenerationsCount(reqs, j);
      CountGrows(reqs, reqs[i], i + 1, j);
      CountGrows(reqs, reqs[i], i, i + 1);
    }
  }

  // ----- The answers, one from another -----

  /** Nothing in the log answers request i: it is not a non-empty HARD target that was asked for before. */
  ghost predicate AsksAnew(reqs: seq<Req>, i: nat)
    requires i < |reqs|
  {
    reqs[i].link.SOFT? || reqs[i].target == "" || reqs[i] !in reqs[..i]
  }

  lemma {:induction false} AnewIsFresh(reqs: seq<Req>, i: nat)
    requires i < |reqs|
    ensures AsksAnew(reqs, i) <==> Fresh(reqs, i)
  {
    assert reqs[i] in reqs[..i] <==> exists k :: 0 <= k < i && reqs[k] == reqs[i];
  }

  lemma {:induction false} FreshPrefix(reqs: seq<Req>, i: nat)
    requires i < |reqs|
    ensures Blocks(reqs[..i + 1]) == Blocks(reqs[..i]) + if Fresh(reqs, i) then 1 else 0
  {
    assert reqs[..i + 1][..i] == reqs[..i];
    assert Fresh(reqs[..i + 1], i) <==> Fresh(reqs, i);
  }

  lemma {:induction false} NoneFresh(reqs: seq<Req>, h: nat, i: nat)
    requires h <= i <= |reqs| && forall k :: h <= k < i ==> !Fresh(reqs, k)
    ensures Blocks(reqs[..i]) == Blocks(reqs[..h])
    decreases i
  {
    hide Fresh, Blocks;
    if h < i {
      NoneFresh(reqs, h, i - 1);
      FreshPrefix(reqs, i - 1);
    }
  }

  lemma {:induction false} FreshAnswer(reqs: seq<Req>, i: nat)
    requires i < |reqs| && Fresh(reqs, i)
    ensures Assigned(reqs, i) == InoGen(InoOfBlock(Blocks(reqs[..i]) + 1), 1)
  {
    FreshPrefix(reqs, i);
    hide Blocks, InoOfBlock;
    if Cached(reqs[i]) {
      CountAbsent(reqs[..i], reqs[i]);
      CountStep(reqs[..i], reqs[i], reqs[i]);
      assert reqs[..i] + [reqs[i]] == reqs[..i + 1];
    }
  }

  lemma {:induction false} NotCounted(reqs: seq<Req>, r: Req, h: nat, i: nat)
    requires h <= i <= |reqs| && r !in reqs[h..i]
    ensures Count(reqs[..i], r) == Count(reqs[..h], r)
    decreases i
  {
    hide Count;
    if h < i {
      assert reqs[..i - 1] + [reqs[i - 1]] == reqs[..i];
      assert reqs[h..i] == reqs[h..i - 1] + [reqs[i - 1]];
      NotCounted(reqs, r, h, i - 1);
      CountStep(reqs[..i - 1], reqs[i - 1], r);
    }
  }

  lemma {:induction false} FirstAnswer(reqs: seq<Req>)
    requires reqs != []
    ensures Assigned(reqs, 0) == InoGen(1_000_000_000, 1)
  {
    FreshAnswer(reqs, 0);
    assert reqs[..0] == [] && Blocks([]) == 0;
    hide Blocks, Assigned;
    InoOfBlockExact(1);
  }

  lemma {:induction false} NextAnswer(reqs: seq<Req>, h: nat, i: nat)
    requires h < i < |reqs| && Fresh(reqs, h) && Fresh(reqs, i) && forall k :: h < k < i ==> !Fresh(reqs, k)
    ensures Assigned(reqs, i) == InoGen((Assigned(reqs, h).ino + 1_000_000_000) % TWO_64, 1)
  {
    hide Fresh, Blocks, Assigned, InoOfBlock;
    FreshAnswer(reqs, h);
    FreshAnswer(reqs, i);
    FreshPrefix(reqs, h);
    NoneFresh(reqs, h + 1, i);
    NextBlock(Blocks(reqs[..h]) + 1);
  }

  lemma {:induction false} WrapIs(x: nat)
    ensures Wrap(x) == x % TWO_64
  {
  }

  lemma {:induction false} SameAnswer(reqs: seq<Req>, h: nat, i: nat)
    requires h < i < |reqs| && !Fresh(reqs, i) && reqs[h] == reqs[i] && reqs[i] !in reqs[h + 1..i]
    ensures Assigned(reqs, i) == InoGen(Assigned(reqs, h).ino, (Assigned(reqs, h).gen + 1) % TWO_64)
  {
    hide Blocks, Count, FirstIndex, InoOfBlock, Wrap;
    var r := reqs[i];
    NotCounted(reqs, r, h + 1, i);
    assert reqs[..i] + [r] == reqs[..i + 1];
    CountStep(reqs[..i], r, r);
    WrapAdd(Count(reqs[..h + 1], r), 1);
    WrapIs(Assigned(reqs, h).gen + 1);
  }

  /**
   What every request is answered, from the answers before it. The first one gets the number 10^9
   and generation 1. A request that asks anew gets the next number, 10^9 after the one before, and
   generation 1. Any other one gets the number of the same request before it and the next generation.
   */
  lemma {:induction false} AnswersFollow(reqs: seq<Req>, h: nat, i: nat)
    requires h < i < |reqs|
    ensures Assigned(reqs, 0) == InoGen(1_000_000_000, 1)
    ensures AsksAnew(reqs, h) && AsksAnew(reqs, i) && (forall k :: h < k < i ==> !AsksAnew(reqs, k)) ==>
              Assigned(reqs, i) == InoGen((Assigned(reqs, h).ino + 1_000_000_000) % TWO_64, 1)
    ensures !AsksAnew(reqs, i) && reqs[h] == reqs[i] && reqs[i] !in reqs[h + 1..i] ==>
              Assigned(reqs, i) == InoGen(Assigned(reqs, h).ino, (Assigned(reqs, h).gen + 1) % TWO_64)
  {
    hide AsksAnew, Fresh, Blocks, Count, Assigned, FirstIndex;
    forall k: nat | k < |reqs| ensures AsksAnew(reqs, k) <==> Fresh(reqs, k) { AnewIsFresh(reqs, k); }
    FirstAnswer(reqs);
    if AsksAnew(reqs, h) && AsksAnew(reqs, i) && forall k :: h < k < i ==> !AsksAnew(reqs, k) {
      NextAnswer(reqs, h, i);
    }
    if !AsksAnew(reqs, i) && reqs[h] == reqs[i] && reqs[i] !in reqs[h + 1..i] { SameAnswer(reqs, h, i); }
  }

  // ----- Archive entries inside their block -----

  /** The numbers an archive opened for request i gives its entries: ino + 1 upward. */
  predicate ArchiveOf(reqs: seq<Req>, i: nat, a: ZipArgs)
    requires i < |reqs|
  {
    a.inoStart == Wrap(Assigned(reqs, i).ino + 1)
  }

  /** The number of entry k of an archive whose target has block b. */
  function EntryNumber(b: nat, k: nat): nat {
    Wrap(INO_STEP * b + 1 + k)
  }

  lemma {:induction false} EntryNumbered(reqs: seq<Req>, i: nat, a: ZipArgs, k: nat)
    requires i < |reqs| && ArchiveOf(reqs, i, a)
    ensures InoAt(a, k) == EntryNumber(Block(reqs, i), k)
  {
    var b := Block(reqs, i);
    hide Block;
    WrapAdd(INO_STEP * b, 1);
    WrapAdd(INO_STEP * b + 1, k);
  }

  /** An archive that keeps at most INO_STEP - 1 entries numbers them strictly inside its block. */
  lemma {:induction false} EntryInBlock(reqs: seq<Req>, i: nat, a: ZipArgs, es: seq<Entry>, d: string, n: string)
    requires i < |reqs| && Blocks(reqs) <= MAX_BLOCKS && ArchiveOf(reqs, i, a)
    requires |KeptOf(es, a.stripPrefix)| <= INO_STEP - 1 && Lists(IndexOf(es, a), d, n)
    ensures Assigned(reqs, i).ino < IndexOf(es, a)[d][n].ino < Assigned(reqs, i).ino + INO_STEP
  {
    hide IndexOf, KeptOf, Blocks, Block;
    BlockRange(reqs, i);
    InoOfBlockExact(Block(reqs, i));
    assert a.inoStart == Assigned(reqs, i).ino + 1;
    InodesFollowArchiveOrder(es, a, d, n, d, n);
  }

  /** An entry's number is inside its block, or wraps to one below every block. */
  lemma {:induction false} NumberShape(b: nat, k: nat)
    requires 1 <= b <= DISJOINT_BLOCKS && k <= INO_STEP - 2
    ensures var plain := INO_STEP * b + 1 + k;
            EntryNumber(b, k) == if plain < TWO_64 then plain else plain - TWO_64
    ensures INO_STEP * b + 1 + k >= TWO_64 ==> b == DISJOINT_BLOCKS && EntryNumber(b, k) < INO_STEP
  {
  }

  /** Numbers of different blocks never meet, nor does an entry's number meet its own node's. */
  lemma {:induction false} NumbersApart(b: nat, c: nat, k: nat, l: nat)
    requires 1 <= b <= DISJOINT_BLOCKS && 1 <= c <= DISJOINT_BLOCKS
    requires k <= INO_STEP - 2 && l <= INO_STEP - 2
    ensures EntryNumber(b, k) != InoOfBlock(c)
    ensures EntryNumber(b, k) == EntryNumber(c, l) ==> b == c && k == l
  {
    InoOfBlockExact(b);
    InoOfBlockExact(c);
    NumberShape(b, k);
    NumberShape(c, l);
    hide InoOfBlock, EntryNumber;
    if b < c {
      assert INO_STEP * b + INO_STEP <= INO_STEP * c;
    } else if c < b {
      assert INO_STEP * c + INO_STEP <= INO_STEP * b;
    }
  }

  /** No archive entry has the number of any node. */
  lemma {:induction false} EntryIsNoNode(reqs: seq<Req>, i: nat, j: nat, a: ZipArgs, es: seq<Entry>, d: string,
                                         n: string)
    requires i < |reqs| && j < |reqs| && Blocks(reqs) <= DISJOINT_BLOCKS && ArchiveOf(reqs, i, a)
    requires |KeptOf(es, a.stripPrefix)| <= INO_STEP - 1 && Lists(IndexOf(es, a), d, n)
    ensures IndexOf(es, a)[d][n].ino != Assigned(reqs, j).ino
  {
    hide IndexOf, KeptOf, Blocks, Block, InoOfBlock, EntryNumber, InoAt, LastPlaced;
    var k := NumberOfListed(es, a, d, n);
    EntryNumbered(reqs, i, a, k);
    BlockRange(reqs, i);
    BlockRange(reqs, j);
    NumbersApart(Block(reqs, i), Block(reqs, j), k, 0);
  }

  /** Archives of different requests share no entry number. */
  lemma {:induction false} EntriesApart(reqs: seq<Req>, i: nat, j: nat, a: ZipArgs, b: ZipArgs,
                                        es: seq<Entry>, fs: seq<Entry>, d: string, n: string, d': string, n': string)
    requires i < |reqs| && j < |reqs| && Blocks(reqs) <= DISJOINT_BLOCKS && reqs[i] != reqs[j]
    requires ArchiveOf(reqs, i, a) && ArchiveOf(reqs, j, b)
    requires |KeptOf(es, a.stripPrefix)| <= INO_STEP - 1 && |KeptOf(fs, b.stripPrefix)| <= INO_STEP - 1
    requires Lists(IndexOf(es, a), d, n) && Lists(IndexOf(fs, b), d', n')
    ensures IndexOf(es, a)[d][n].ino != IndexOf(fs, b)[d'][n'].ino
  {
    hide IndexOf, KeptOf, Blocks, Block, InoOfBlock, EntryNumber, InoAt, LastPlaced, Assigned;
    var k := NumberOfListed(es, a, d, n);
    var l := NumberOfListed(fs, b, d', n');
    EntryNumbered(reqs, i, a, k);
    EntryNumbered(reqs, j, b, l);
    BlockRange(reqs, i);
    BlockRange(reqs, j);
    BlockShared(reqs, i, j);
    NumbersApart(Block(reqs, i), Block(reqs, j), k, l);
  }

  /**
   The bound on entries is exact: entry k stays inside the block just when k <= INO_STEP - 2, and
   the entry after that has the number of the next block.
   */
  lemma {:induction false} EntryBoundIsExact(b: nat, k: nat)
    requires b < MAX_BLOCKS && k < INO_STEP
    ensures EntryNumber(b, k) < InoOfBlock(b + 1) <==> k <= INO_STEP - 2
    ensures EntryNumber(b, INO_STEP - 1) == InoOfBlock(b + 1)
  {
    InoOfBlockExact(b + 1);
  }

  /** All entries of a block that can be reached without wrapping fit exactly up to MAX_BLOCKS. */
  lemma {:induction false} FitBoundIsExact(b: nat)
    requires b <= DISJOINT_BLOCKS
    ensures (forall k: nat :: k <= INO_STEP - 2 ==> EntryNumber(b, k) == INO_STEP * b + 1 + k) <==> b <= MAX_BLOCKS
  {
    if b > MAX_BLOCKS {
      assert EntryNumber(b, INO_STEP - 2) < TWO_64;
    }
  }

  /**
   The bound on blocks is exact too: in a run that takes block DISJOINT_BLOCKS + 1, an archive of
   that block gives entry 709,551,615 the number of the node of block 1, and the two blocks' own
   numbers are less than a step apart.
   */
  lemma {:induction false} BlockBoundIsExact(reqs: seq<Req>, i: nat, j: nat, a: ZipArgs)
    requires i < |reqs| && j < |reqs| && Block(reqs, i) == 1 && Block(reqs, j) == DISJOINT_BLOCKS + 1
    requires ArchiveOf(reqs, j, a)
    ensures 709_551_615 <= INO_STEP - 2 && InoAt(a, 709_551_615) == Assigned(reqs, i).ino
    ensures Assigned(reqs, j).ino < Assigned(reqs, i).ino < Assigned(reqs, j).ino + INO_STEP
  {
    EntryNumbered(reqs, j, a, 709_551_615);
    hide Block;
    assert EntryNumber(DISJOINT_BLOCKS + 1, 709_551_615) == INO_STEP == InoOfBlock(1);
  }
}
