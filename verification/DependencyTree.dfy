/**
 The daemon's input trees, as objects, and their initialisation: every node of every mount asks
 the allocator for its inode block. Map iteration is modelled by taking the remaining names in
 any order, so everything below holds for every order.
 */
module DependencyTree {
  import opened FuseTypes
  import opened Inodes
  import opened ZipIndex

  /** A dependency node as a value: what Lookup and Readdir read. */
  datatype Dep = Dep(link: LinkType, target: string, inoGen: InoGen, children: map<string, Dep>)

  const UNMOUNT_FILE := ".00unmount"

  /**
   A node. Nothing writes Children2 of a node below a mount root, so the shape is constant and
   only inoGen is ever assigned. `slot` remembers which request of the allocator's log was this
   node's.
   */
  class DependencyRoot {
    const link: LinkType
    const target: string
    const children: map<string, DependencyRoot>
    ghost const height: nat
    ghost const nodes: set<DependencyRoot>
    var inoGen: InoGen
    ghost var slot: nat

    constructor (link: LinkType, target: string, children: map<string, DependencyRoot>, ghost height: nat)
      requires Separate(children)
      requires forall k :: k in children ==> children[k].height < height
      ensures this.link == link && this.target == target && this.children == children
      ensures Valid() && this.height == height && nodes == {this} + NodesOf(children)
    {
      this.link, this.target, this.children, this.height := link, target, children, height;
      this.nodes := {this} + NodesOf(children);
      new;
      assert forall n :: n in NodesOf(children) ==> allocated(n);
    }

    /** The node is the top of a tree: subtrees are disjoint and do not contain it. */
    ghost predicate Valid()
      decreases height
    {
      && nodes == {this} + NodesOf(children) && this !in NodesOf(children)
      && (forall k :: k in children ==> children[k].height < height && children[k].Valid())
      && DisjointTrees(children)
    }

    /** The tree as a value. */
    ghost function View(): Dep
      requires Valid()
      reads nodes
      decreases height
    {
      Dep(link, target, inoGen, map k | k in children :: children[k].View())
    }

    lemma {:induction false} Shape()
      requires Valid()
      ensures nodes == {this} + NodesOf(children) && this !in NodesOf(children) && DisjointTrees(children)
      ensures forall k :: k in children ==> children[k].height < height && children[k].Valid()
    {
    }

    function Request(): Req {
      Req(link, target)
    }

    method Init(alloc: InodeAllocator)
      requires Valid() && alloc.Valid()
      modifies alloc, nodes
      ensures alloc.Valid() && old(alloc.log) <= alloc.log
      ensures Settled(nodes, alloc.log, |old(alloc.log)|, |alloc.log|)
      decreases height, 2
    {
      hide Assigned, Tracks, Settled, NodesOf, DependencyRoot.Valid;
      Shape();
      inoGen := alloc.GetInoStart(link, target);
      slot := |alloc.log| - 1;
      SettledOne(this, alloc.log);
      InitChildren(alloc, |old(alloc.log)|);
    }

    /** The nodes initialised when these children are still to come. */
    ghost function Reached(todo: set<string>): set<DependencyRoot> {
      {this} + NodesIn(children, children.Keys - todo)
    }

    lemma {:induction false} NothingReached()
      ensures Reached(children.Keys) == {this}
    {
      assert children.Keys - children.Keys == {};
      NodesInNone(children);
    }

    lemma {:induction false} AllReached()
      requires Valid()
      ensures Reached({}) == nodes
    {
      assert children.Keys - {} == children.Keys;
      NodesInAll(children);
      Shape();
    }

    lemma {:induction false} OneMoreReached(todo: set<string>, name: string)
      requires Valid() && todo <= children.Keys && name in todo
      ensures Reached(todo - {name}) == Reached(todo) + children[name].nodes
      ensures Reached(todo) !! children[name].nodes && children[name].nodes <= nodes - {this}
    {
      hide NodesIn, NodesOf, DisjointTrees;
      Shape();
      NodesInStep(children, children.Keys - todo, name, this);
      assert children.Keys - (todo - {name}) == children.Keys - todo + {name};
    }

    /** One child of the loop over Children2. */
    method InitChild(alloc: InodeAllocator, name: string, ghost done: set<DependencyRoot>, ghost lo: nat)
      requires Valid() && alloc.Valid() && name in children
      requires done !! children[name].nodes && Settled(done, alloc.log, lo, |alloc.log|)
      modifies alloc, children[name].nodes
      ensures alloc.Valid() && old(alloc.log) <= alloc.log
      ensures Settled(done + children[name].nodes, alloc.log, lo, |alloc.log|)
      decreases height, 0
    {
      hide Assigned, Tracks, Settled, NodesOf, DependencyRoot.Valid;
      Shape();
      ghost var mid := alloc.log;
      children[name].Init(alloc);
      SettledExtend(done, children[name].nodes, mid, alloc.log, lo);
    }

    /** The loop over Children2, once the node has its own number. */
    method InitChildren(alloc: InodeAllocator, ghost lo: nat)
      requires Valid() && alloc.Valid() && Settled({this}, alloc.log, lo, |alloc.log|)
      modifies alloc, nodes - {this}
      ensures alloc.Valid() && old(alloc.log) <= alloc.log
      ensures Settled(nodes, alloc.log, lo, |alloc.log|)
      decreases height, 1
    {
      hide Assigned, InodeAllocator.Valid, Settled, DependencyRoot.Valid, DependencyRoot.Reached;
      NothingReached();
      ghost var mine := nodes - {this};
      var todo := children.Keys;
      while todo != {}
        invariant todo <= children.Keys && alloc.Valid() && old(alloc.log) <= alloc.log
        invariant Settled(Reached(todo), alloc.log, lo, |alloc.log|)
        decreases |todo|
      {
        var name :| name in todo;
        OneMoreReached(todo, name);
        assert children[name].nodes <= mine;
        InitChild(alloc, name, Reached(todo), lo);
        todo := todo - {name};
      }
      AllReached();
    }
  }

  /** The nodes of the trees under the given names. */
  ghost function NodesIn(children: map<string, DependencyRoot>, names: set<string>): set<DependencyRoot> {
    set k, n | k in names * children.Keys && n in children[k].nodes :: n
  }

  lemma {:induction false} NodesInNone(children: map<string, DependencyRoot>)
    ensures NodesIn(children, {}) == {}
  {
  }

  ghost function NodesOf(children: map<string, DependencyRoot>): set<DependencyRoot> {
    set k, n | k in children && n in children[k].nodes :: n
  }

  lemma {:induction false} NodesInAll(children: map<string, DependencyRoot>)
    ensures NodesIn(children, children.Keys) == NodesOf(children)
  {
  }

  ghost predicate DisjointTrees(children: map<string, DependencyRoot>) {
    forall j, k :: j in children && k in children && j != k ==> children[j].nodes !! children[k].nodes
  }

  lemma {:induction false} NodesInStep(children: map<string, DependencyRoot>, names: set<string>, name: string,
                                       top: DependencyRoot)
    requires DisjointTrees(children) && name in children && name !in names && names <= children.Keys
    requires top !in NodesOf(children)
    ensures NodesIn(children, names + {name}) == NodesIn(children, names) + children[name].nodes
    ensures NodesIn(children, names) + {top} !! children[name].nodes
    ensures children[name].nodes <= NodesOf(children)
  {
  }

  ghost predicate Separate(children: map<string, DependencyRoot>) {
    (forall k :: k in children ==> children[k].Valid()) && DisjointTrees(children)
  }

  /** Each node has its own request among requests lo..hi, and there are no other requests. */
  ghost predicate Settled(nodes: set<DependencyRoot>, log: seq<Req>, lo: nat, hi: nat)
    reads nodes
  {
    && lo <= hi <= |log|
    && (forall n :: n in nodes ==> lo <= n.slot < hi && log[n.slot] == n.Request() && n.inoGen == Assigned(log, n.slot))
    && (forall a, b :: a in nodes && b in nodes && a.slot == b.slot ==> a == b)
    && |nodes| == hi - lo
  }

  lemma {:induction false} SettledNone(log: seq<Req>)
    ensures Settled({}, log, 0, 0)
  {
  }

  lemma {:induction false} SettledOne(n: DependencyRoot, log: seq<Req>)
    requires log != [] && n.slot == |log| - 1 && log[n.slot] == n.Request() && n.inoGen == Assigned(log, n.slot)
    ensures Settled({n}, log, |log| - 1, |log|)
  {
  }

  lemma {:induction false} AssignedStable(log: seq<Req>, more: seq<Req>, i: nat)
    requires i < |log| && log <= more
    ensures Assigned(more, i) == Assigned(log, i)
  {
    hide Blocks, Count, Wrap, FirstIndex;
    assert more[..i + 1] == log[..i + 1];
    if Cached(log[i]) {
      var f, g := FirstIndex(log, log[i]), FirstIndex(more, log[i]);
      assert f == g;
    }
    assert more[..Origin(log, i) + 1] == log[..Origin(log, i) + 1];
  }

  lemma {:induction false} SettledGrows(nodes: set<DependencyRoot>, log: seq<Req>, more: seq<Req>, lo: nat)
    requires Settled(nodes, log, lo, |log|) && log <= more
    ensures Settled(nodes, more, lo, |log|)
  {
    hide Assigned;
    forall n | n in nodes ensures n.inoGen == Assigned(more, n.slot) && more[n.slot] == n.Request() {
      AssignedStable(log, more, n.slot);
    }
  }

  lemma {:induction false} SettledExtend(a: set<DependencyRoot>, b: set<DependencyRoot>, mid: seq<Req>, log: seq<Req>,
                                         lo: nat)
    requires Settled(a, mid, lo, |mid|) && Settled(b, log, |mid|, |log|) && a !! b && mid <= log
    ensures Settled(a + b, log, lo, |log|)
  {
    hide Assigned;
    SettledGrows(a, mid, log, lo);
  }

  lemma {:induction false} HeightBound(children: map<string, DependencyRoot>) returns (h: nat)
    ensures forall k :: k in children ==> children[k].height < h
    decreases |children|
  {
    h := 0;
    if children != map[] {
      var k :| k in children;
      var rest := children - {k};
      assert rest.Keys == children.Keys - {k} && |rest.Keys| < |children.Keys|;
      h := HeightBound(rest);
      h := if children[k].height < h then h else children[k].height + 1;
      assert forall j :: j in children ==> j == k || j in rest;
    }
  }

  // ----- Mounts -----

  lemma {:induction false} NoChildren()
    ensures Separate(map[]) && NodesOf(map[]) == {}
  {
  }

  lemma {:induction false} SeparateAdd(children: map<string, DependencyRoot>, name: string, dep: DependencyRoot)
    requires Separate(children) && dep.Valid() && dep.nodes !! NodesOf(children)
    ensures Separate(children[name := dep])
    ensures NodesOf(children[name := dep]) <= NodesOf(children) + dep.nodes
    ensures name !in children ==> NodesOf(children[name := dep]) == NodesOf(children) + dep.nodes
  {
    hide DependencyRoot.Valid;
    var more := children[name := dep];
    forall j, k | j in more && k in more && j != k ensures more[j].nodes !! more[k].nodes {
      assert j in children ==> children[j].nodes <= NodesOf(children);
      assert k in children ==> children[k].nodes <= NodesOf(children);
    }
    forall n | name !in children && n in NodesOf(children) ensures n in NodesOf(more) {
      var k :| k in children && n in children[k].nodes;
      assert more[k] == children[k];
    }
    assert more[name] == dep && dep.nodes <= NodesOf(more);
  }

  /**
   A mount root. Initialisation runs on a copy of the struct: the copy shares the Children2 map,
   so the injected entry and the children's numbers stay, but the copy's own inoGen is dropped.
   */
  class MountRoot {
    const link: LinkType
    const target: string
    var children: map<string, DependencyRoot>

    constructor (link: LinkType, target: string, children: map<string, DependencyRoot>)
      ensures this.link == link && this.target == target && this.children == children
    {
      this.link, this.target, this.children := link, target, children;
    }

    /** The copy carries the root's own request and its children with the injected entry. */
    ghost predicate IsCopy(copy: DependencyRoot, before: map<string, DependencyRoot>) {
      && copy.Valid() && copy.Request() == Req(link, target)
      && ".00unmount" in copy.children && copy.children == before[".00unmount" := copy.children[".00unmount"]]
      && copy.children[UNMOUNT_FILE].Request() == Req(HARD, "") && copy.children[UNMOUNT_FILE].children == map[]
    }

    lemma {:induction false} CopyValid(copy: DependencyRoot, before: map<string, DependencyRoot>)
      requires IsCopy(copy, before)
      ensures copy.Valid()
    {
    }

    /** `done` are the nodes initialised so far, `waiting` those of the mounts still to come. */
    method Init(alloc: InodeAllocator, ghost done: set<DependencyRoot>, ghost waiting: set<DependencyRoot>)
      returns (ghost copy: DependencyRoot)
      requires Separate(children) && alloc.Valid() && Settled(done, alloc.log, 0, |alloc.log|)
      requires done !! NodesOf(children) && waiting !! NodesOf(children)
      modifies this, alloc, NodesOf(children)
      ensures alloc.Valid() && old(alloc.log) <= alloc.log
      ensures IsCopy(copy, old(children)) && children == copy.children
      ensures copy.nodes !! done && copy.nodes !! waiting
      ensures Settled(done + copy.nodes, alloc.log, 0, |alloc.log|)
    {
      hide Assigned, Tracks, Settled, Separate, DependencyRoot.Valid;
      NoChildren();
      ghost var known := NodesOf(children);
      assert forall n :: n in known ==> allocated(n);
      hide NodesOf;
      var unmount := new DependencyRoot(HARD, "", map[], 1);
      assert unmount !in known;
      SeparateAdd(children, UNMOUNT_FILE, unmount);
      children := children[UNMOUNT_FILE := unmount];
      ghost var h := HeightBound(children);
      var root := new DependencyRoot(link, target, children, h);
      root.Init(alloc);
      SettledExtend(done, root.nodes, old(alloc.log), alloc.log, 0);
      copy := root;
    }
  }

  ghost predicate Apart(before: map<string, map<string, DependencyRoot>>) {
    forall j, k :: j in before && k in before && j != k ==> NodesOf(before[j]) !! NodesOf(before[k])
  }

  /** The nodes of the mounts with the given names. */
  ghost function Rest(before: map<string, map<string, DependencyRoot>>, names: set<string>): set<DependencyRoot> {
    set k, n | k in names * before.Keys && n in NodesOf(before[k]) :: n
  }

  lemma {:induction false} RestStep(before: map<string, map<string, DependencyRoot>>, names: set<string>, name: string)
    requires Apart(before) && name in names && name in before
    ensures Rest(before, names) == Rest(before, names - {name}) + NodesOf(before[name])
    ensures Rest(before, names - {name}) !! NodesOf(before[name])
  {
    hide NodesOf;
  }

  class FuseData {
    const roots: map<string, MountRoot>

    constructor (roots: map<string, MountRoot>)
      ensures this.roots == roots
    {
      this.roots := roots;
    }

    ghost predicate Valid()
      reads roots.Values
    {
      && (forall k :: k in roots ==> Separate(roots[k].children))
      && forall j, k :: j in roots && k in roots && j != k ==>
           roots[j] != roots[k] && NodesOf(roots[j].children) !! NodesOf(roots[k].children)
    }

    ghost function AllNodes(): set<DependencyRoot>
      reads roots.Values
    {
      set k, n | k in roots && n in NodesOf(roots[k].children) :: n
    }

    /** What the loop over the mounts has established when the mounts in `todo` are still to come. */
    ghost predicate Progress(alloc: InodeAllocator, copies: map<string, DependencyRoot>, todo: set<string>,
                             before: map<string, map<string, DependencyRoot>>)
      requires before.Keys == roots.Keys
      reads alloc, roots.Values, NodesOf(copies)
    {
      && todo <= roots.Keys && copies.Keys == roots.Keys - todo
      && alloc.Valid() && Settled(NodesOf(copies), alloc.log, 0, |alloc.log|)
      && Separate(copies) && Rest(before, todo) !! NodesOf(copies)
      && (forall k :: k in todo ==> roots[k].children == before[k])
      && forall k :: k in copies ==> roots[k].IsCopy(copies[k], before[k]) && roots[k].children == copies[k].children
    }

    ghost predicate Shaped(before: map<string, map<string, DependencyRoot>>) {
      && before.Keys == roots.Keys && Apart(before)
      && (forall k :: k in roots ==> Separate(before[k]))
      && forall j, k :: j in roots && k in roots && j != k ==> roots[j] != roots[k]
    }

    /** The part of Progress that the heap does not matter for. */
    lemma {:induction false} CopiesGrow(copies: map<string, DependencyRoot>, todo: set<string>,
                                        before: map<string, map<string, DependencyRoot>>, name: string,
                                        copy: DependencyRoot)
      requires before.Keys == roots.Keys && todo <= roots.Keys && copies.Keys == roots.Keys - todo && name in todo
      requires Separate(copies) && Rest(before, todo) !! NodesOf(copies)
      requires Rest(before, todo - {name}) <= Rest(before, todo)
      requires roots[name].IsCopy(copy, before[name])
      requires copy.nodes !! NodesOf(copies) && copy.nodes !! Rest(before, todo - {name})
      ensures var more, left := copies[name := copy], todo - {name};
              && more.Keys == roots.Keys - left && NodesOf(more) == NodesOf(copies) + copy.nodes
              && Separate(more) && Rest(before, left) !! NodesOf(more)
    {
      hide Settled, Separate, NodesOf, MountRoot.IsCopy, DependencyRoot.Valid, Rest, Apart;
      roots[name].CopyValid(copy, before[name]);
      SeparateAdd(copies, name, copy);
    }

    /** What Progress says before a mount is initialised, with the children maps recorded. */
    lemma {:induction false} ProgressMeans(alloc: InodeAllocator, copies: map<string, DependencyRoot>,
                                           todo: set<string>,
                                           before: map<string, map<string, DependencyRoot>>,
                                           was: map<string, map<string, DependencyRoot>>, name: string)
      requires Shaped(before) && Progress(alloc, copies, todo, before) && name in todo
      requires was == map k | k in roots :: roots[k].children
      ensures todo <= roots.Keys && copies.Keys == roots.Keys - todo && before.Keys == roots.Keys
      ensures alloc.Valid() && Settled(NodesOf(copies), alloc.log, 0, |alloc.log|)
      ensures Separate(copies) && Rest(before, todo) !! NodesOf(copies) && Separate(before[name]) && Apart(before)
      ensures roots[name].children == before[name] && forall k :: k in roots && k != name ==> roots[k] != roots[name]
      ensures Recorded(copies, todo, before, was)
    {
      hide Settled, Separate, NodesOf, MountRoot.IsCopy, Rest, Apart, InodeAllocator.Valid;
    }

    ghost predicate Recorded(copies: map<string, DependencyRoot>, todo: set<string>,
                             before: map<string, map<string, DependencyRoot>>,
                             was: map<string, map<string, DependencyRoot>>) {
      && before.Keys == roots.Keys == was.Keys && todo <= roots.Keys && copies.Keys == roots.Keys - todo
      && (forall k :: k in todo ==> was[k] == before[k])
      && forall k :: k in copies ==> roots[k].IsCopy(copies[k], before[k]) && was[k] == copies[k].children
    }

    lemma {:induction false} ProgressMade(alloc: InodeAllocator, copies: map<string, DependencyRoot>, todo: set<string>,
                                          before: map<string, map<string, DependencyRoot>>,
                                          was: map<string, map<string, DependencyRoot>>, name: string,
                                          copy: DependencyRoot)
      requires Recorded(copies, todo, before, was) && name in todo && alloc.Valid()
      requires var more, left := copies[name := copy], todo - {name};
               && more.Keys == roots.Keys - left && NodesOf(more) == NodesOf(copies) + copy.nodes
               && Separate(more) && Rest(before, left) !! NodesOf(more)
      requires Settled(NodesOf(copies) + copy.nodes, alloc.log, 0, |alloc.log|)
      requires roots[name].IsCopy(copy, before[name]) && roots[name].children == copy.children
      requires forall k :: k in roots && k != name ==> roots[k].children == was[k]
      ensures Progress(alloc, copies[name := copy], todo - {name}, before)
    {
      hide Settled, Separate, NodesOf, MountRoot.IsCopy, Rest, InodeAllocator.Valid;
    }

    /** One mount of the loop. */
    method InitMount(name: string, alloc: InodeAllocator, ghost copies: map<string, DependencyRoot>,
                     ghost todo: set<string>, ghost before: map<string, map<string, DependencyRoot>>)
      returns (ghost copy: DependencyRoot)
      requires Shaped(before) && Progress(alloc, copies, todo, before) && name in todo
      modifies alloc, roots[name], NodesOf(before[name])
      ensures Progress(alloc, copies[name := copy], todo - {name}, before)
    {
      hide Assigned, InodeAllocator.Valid, Settled, Separate, NodesOf, MountRoot.IsCopy, DependencyRoot.Valid, Rest,
           Apart, FuseData.Progress;
      ghost var was := map k | k in roots :: roots[k].children;
      ProgressMeans(alloc, copies, todo, before, was, name);
      RestStep(before, todo, name);
      hide FuseData.Shaped;
      ghost var apart := roots.Values - {roots[name]};
      copy := roots[name].Init(alloc, NodesOf(copies), Rest(before, todo - {name}));
      forall k | k in roots && k != name ensures roots[k].children == was[k] {
        assert roots[k] in apart;
      }
      CopiesGrow(copies, todo, before, name, copy);
      ProgressMade(alloc, copies, todo, before, was, name, copy);
    }

    lemma {:induction false} StartProgress(alloc: InodeAllocator, before: map<string, map<string, DependencyRoot>>)
      requires Valid() && alloc.Valid() && alloc.log == []
      requires before.Keys == roots.Keys && forall k :: k in roots ==> before[k] == roots[k].children
      ensures Shaped(before) && Progress(alloc, map[], roots.Keys, before)
      ensures forall k :: k in roots ==> NodesOf(before[k]) <= AllNodes()
    {
      hide Tracks, Settled, Separate, NodesOf, DependencyRoot.Valid;
      NoChildren();
      SettledNone(alloc.log);
    }

    /**
     `copies` are the initialised copies of the mount roots. The nodes of their trees, which are
     the nodes of all mounts with the injected entries, have one request each, and there are no
     other requests.
     */
    method Init(alloc: InodeAllocator) returns (ghost copies: map<string, DependencyRoot>)
      requires Valid() && alloc.Valid() && alloc.log == []
      modifies alloc, roots.Values, AllNodes()
      ensures alloc.Valid() && Settled(NodesOf(copies), alloc.log, 0, |alloc.log|)
      ensures copies.Keys == roots.Keys
      ensures forall k :: k in roots ==>
          roots[k].IsCopy(copies[k], old(roots[k].children)) && roots[k].children == copies[k].children
    {
      hide FuseData.AllNodes, FuseData.Valid, FuseData.Shaped, FuseData.Progress, NodesOf, Settled, Separate,
           MountRoot.IsCopy;
      copies := map[];
      var todo := roots.Keys;
      ghost var before := map k | k in roots :: roots[k].children;
      StartProgress(alloc, before);
      ghost var region := AllNodes();
      while todo != {}
        invariant todo <= roots.Keys && Progress(alloc, copies, todo, before)
        decreases |todo|
      {
        var name :| name in todo;
        ghost var copy := InitMount(name, alloc, copies, todo, before);
        copies := copies[name := copy];
        todo := todo - {name};
      }
      Finished(alloc, copies, before);
      assert forall k :: k in roots ==> before[k] == old(roots[k].children);
    }

    lemma {:induction false} Finished(alloc: InodeAllocator, copies: map<string, DependencyRoot>,
                                      before: map<string, map<string, DependencyRoot>>)
      requires before.Keys == roots.Keys && Progress(alloc, copies, {}, before)
      ensures alloc.Valid() && Settled(NodesOf(copies), alloc.log, 0, |alloc.log|) && copies.Keys == roots.Keys
      ensures forall k :: k in roots ==>
          roots[k].IsCopy(copies[k], before[k]) && roots[k].children == copies[k].children
    {
    }
  }

  // ----- Accounting -----

  ghost function TargetsOf(nodes: set<DependencyRoot>): set<string> {
    set n | n in nodes && n.link.HARD? && n.target != "" :: n.target
  }

  ghost function PlainOf(nodes: set<DependencyRoot>): set<DependencyRoot> {
    set n | n in nodes && (n.link.SOFT? || n.target == "")
  }

  ghost function WithRequest(nodes: set<DependencyRoot>, r: Req): set<DependencyRoot> {
    set n | n in nodes && n.Request() == r
  }

  ghost function PlainAt(log: seq<Req>): set<nat> {
    set i: nat | i < |log| && !Cached(log[i])
  }

  ghost function RequestAt(log: seq<Req>, r: Req): set<nat> {
    set i: nat | i < |log| && log[i] == r
  }

  lemma {:induction false} PlainStepAt(log: seq<Req>, r: Req)
    ensures |PlainAt(log + [r])| == |PlainAt(log)| + if Cached(r) then 0 else 1
  {
    assert PlainAt(log + [r]) == PlainAt(log) + if Cached(r) then {} else {|log|};
  }

  lemma {:induction false} NoBlocks()
    ensures Blocks([]) == 0
  {
  }

  lemma {:induction false} BlocksAccounted(log: seq<Req>)
    ensures Blocks(log) == |Targets(log)| + |PlainAt(log)|
  {
    hide Blocks;
    if log == [] {
      assert Blocks(log) == 0 by { NoBlocks(); }
      assert Targets(log) == {} && PlainAt(log) == {};
    } else {
      var m := |log| - 1;
      var before, r := log[..m], log[m];
      BlocksAccounted(before);
      assert log == before + [r];
      TargetsStep(before, r);
      BlocksStep(before, r);
      PlainStepAt(before, r);
      hide Targets, PlainAt;
      assert Cached(r) ==> r == Req(HARD, r.target);
    }
  }

  lemma {:induction false} CountAccounted(log: seq<Req>, r: Req)
    ensures Count(log, r) == |RequestAt(log, r)|
  {
    if log == [] {
      assert RequestAt(log, r) == {};
    } else {
      var m := |log| - 1;
      CountAccounted(log[..m], r);
      assert RequestAt(log, r) == RequestAt(log[..m], r) + if log[m] == r then {m} else {};
    }
  }

  lemma {:induction false} ImageSize(nodes: set<DependencyRoot>, slots: set<nat>)
    requires forall a, b :: a in nodes && b in nodes && a.slot == b.slot ==> a == b
    requires slots == set n | n in nodes :: n.slot
    ensures |slots| == |nodes|
    decreases nodes
  {
    if nodes == {} {
      assert slots == {};
    } else {
      var n :| n in nodes;
      ImageSize(nodes - {n}, slots - {n.slot});
    }
  }

  ghost function FirstNats(k: nat): (r: set<nat>)
    ensures forall i: nat :: i in r <==> i < k
    ensures |r| == k
  {
    if k == 0 then {} else FirstNats(k - 1) + {k - 1}
  }

  lemma {:induction false} SubsetSize(a: set<nat>, b: set<nat>)
    requires a <= b
    ensures |a| <= |b|
  {
    if a != {} {
      var x :| x in a;
      SubsetSize(a - {x}, b - {x});
    }
  }

  lemma {:induction false} SubsetFull(a: set<nat>, b: set<nat>)
    requires a <= b && |a| == |b|
    ensures a == b
  {
    if a != b {
      var x :| x in b && x !in a;
      SubsetSize(a, b - {x});
    }
  }

  /** Every request belongs to a node. */
  lemma {:induction false} SlotsOnto(nodes: set<DependencyRoot>, log: seq<Req>, i: nat) returns (n: DependencyRoot)
    requires Settled(nodes, log, 0, |log|) && i < |log|
    ensures n in nodes && n.slot == i
  {
    var slots := set n | n in nodes :: n.slot;
    ImageSize(nodes, slots);
    SubsetFull(slots, FirstNats(|log|));
    assert i in slots;
    n :| n in nodes && n.slot == i;
  }

  lemma {:induction false} TargetsAccounted(nodes: set<DependencyRoot>, log: seq<Req>)
    requires Settled(nodes, log, 0, |log|)
    ensures TargetsOf(nodes) == Targets(log)
  {
    hide Assigned;
    forall t | t in Targets(log) ensures t in TargetsOf(nodes) {
      var i :| 0 <= i < |log| && Cached(log[i]) && log[i].target == t;
      var n := SlotsOnto(nodes, log, i);
      assert Cached(n.Request()) && n.target == t;
    }
  }

  lemma {:induction false} PlainAccounted(nodes: set<DependencyRoot>, log: seq<Req>)
    requires Settled(nodes, log, 0, |log|)
    ensures |PlainOf(nodes)| == |PlainAt(log)|
  {
    hide Assigned;
    forall i | i in PlainAt(log) ensures exists n :: n in PlainOf(nodes) && n.slot == i {
      var n := SlotsOnto(nodes, log, i);
    }
    ImageSize(PlainOf(nodes), PlainAt(log));
  }

  lemma {:induction false} RequestsAccounted(nodes: set<DependencyRoot>, log: seq<Req>, r: Req)
    requires Settled(nodes, log, 0, |log|)
    ensures |WithRequest(nodes, r)| == Count(log, r)
  {
    hide Assigned, Count;
    CountAccounted(log, r);
    forall i | i in RequestAt(log, r) ensures exists n :: n in WithRequest(nodes, r) && n.slot == i {
      var n := SlotsOnto(nodes, log, i);
    }
    ImageSize(WithRequest(nodes, r), RequestAt(log, r));
  }

  lemma {:induction false} CellCount(log: seq<Req>, t: string)
    requires t in Targets(log)
    ensures Cell(log, t).gen == Wrap(Count(log, Req(HARD, t)))
  {
    hide Blocks, Count, Wrap;
    var i :| 0 <= i < |log| && Cached(log[i]) && log[i].target == t;
    assert log[i] == Req(HARD, t);
  }

  /**
   Allocation accounting, for any order in which the maps were iterated: the last number handed
   out is INO_STEP times the distinct non-empty HARD targets plus the nodes without one, and the
   generation cached for a target is the number of HARD nodes that carry it.
   */
  lemma {:induction false} Accounting(nodes: set<DependencyRoot>, alloc: InodeAllocator)
    requires alloc.Valid() && Settled(nodes, alloc.log, 0, |alloc.log|)
    ensures alloc.lastIno == InoOfBlock(|TargetsOf(nodes)| + |PlainOf(nodes)|)
    ensures alloc.m.Keys == TargetsOf(nodes)
    ensures forall t :: t in alloc.m ==> alloc.m[t].gen == Wrap(|WithRequest(nodes, Req(HARD, t))|)
  {
    hide InoOfBlock, Wrap, Assigned, Blocks, Count, Settled, TargetsOf, PlainOf, WithRequest, PlainAt, Targets, Cell;
    BlocksAccounted(alloc.log);
    TargetsAccounted(nodes, alloc.log);
    PlainAccounted(nodes, alloc.log);
    forall t | t in alloc.m ensures alloc.m[t].gen == Wrap(|WithRequest(nodes, Req(HARD, t))|) {
      RequestsAccounted(nodes, alloc.log, Req(HARD, t));
      CellCount(alloc.log, t);
    }
  }

  /** After initialisation no two nodes of any mount are the same (ino, gen). */
  lemma {:induction false} NodesDistinct(nodes: set<DependencyRoot>, log: seq<Req>, a: DependencyRoot,
                                         b: DependencyRoot)
    requires Settled(nodes, log, 0, |log|) && |log| < TWO_64 && Blocks(log) <= DISJOINT_BLOCKS
    requires a in nodes && b in nodes && a != b
    ensures a.inoGen != b.inoGen
    ensures a.link == b.link == HARD && a.target == b.target != "" ==> a.inoGen.ino == b.inoGen.ino
    ensures !(a.link == b.link == HARD && a.target == b.target != "") ==>
              a.inoGen.ino + INO_STEP <= b.inoGen.ino || b.inoGen.ino + INO_STEP <= a.inoGen.ino
  {
    hide Assigned, Blocks;
    if a.slot < b.slot {
      IdentitiesUnique(log, a.slot, b.slot);
    } else {
      IdentitiesUnique(log, b.slot, a.slot);
    }
  }
}
