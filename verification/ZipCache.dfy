/**
 The two-lock protocol of GetZip under any interleaving.

 Any number of threads call GetZip. A call takes the cache lock, finds or adds the archive object,
 releases the cache lock, takes the object's lock, builds the index entry by entry unless it is
 already built, and releases. Between any two of these steps another thread may move, and the
 cache may drop any key (capacity or expiry). Opening the archive may fail at any attempt.
 */
module ZipCache {
  import opened Wrappers
  import opened NestedIndex
  import opened Paths
  import opened ZipIndex
  import opened ZipGetter

  /** One heap object of type proccessedZip; owner is the thread holding its mutex. */
  datatype Zip = Zip(args: ZipArgs, chMap: Index, processed: bool, owner: Option<nat>)

  /** Where a thread is inside GetZip, and which object it has in hand. */
  datatype Pc =
    | Idle
    | WantCache(req: ZipArgs)
    | InCache(req: ZipArgs)
    | Chosen(req: ZipArgs, z: nat)
    | WantZip(req: ZipArgs, z: nat)
    | InZip(req: ZipArgs, z: nat)
    | Filling(req: ZipArgs, z: nat, at: nat, kept: nat)
    | Leaving(req: ZipArgs, z: nat, ok: bool)
    | Finished(req: ZipArgs, z: nat, ok: bool)

  datatype State = State(cache: map<string, nat>, zips: seq<Zip>, cacheOwner: Option<nat>, threads: seq<Pc>)

  datatype Action =
    | Start(t: nat, req: ZipArgs)       // a thread calls GetZip
    | LockCache(t: nat)
    | Choose(t: nat)                    // cache.Get, and cache.Add on a miss
    | UnlockCache(t: nat)
    | LockZip(t: nat)
    | Check(t: nat, opens: bool)        // the processed test, then zip.OpenReader
    | Fill(t: nat)                      // one archive entry, or the final processed = true
    | Leave(t: nat)                     // unlock and return
    | Evict(path: string)

  predicate HoldsCache(pc: Pc) {
    pc.InCache? || pc.Chosen?
  }

  predicate HoldsZip(pc: Pc, z: nat) {
    (pc.InZip? || pc.Filling? || pc.Leaving?) && pc.z == z
  }

  predicate HasZip(pc: Pc) {
    pc.Chosen? || pc.WantZip? || pc.InZip? || pc.Filling? || pc.Leaving? || pc.Finished?
  }

  predicate Enabled(s: State, act: Action, disk: Disk) {
    match act
    case Evict(path) => true
    case Start(t, req) => t < |s.threads| && (s.threads[t].Idle? || s.threads[t].Finished?) && req.inoStart < TWO_64
    case LockCache(t) => t < |s.threads| && s.threads[t].WantCache? && s.cacheOwner.None?
    case Choose(t) => t < |s.threads| && s.threads[t].InCache?
    case UnlockCache(t) => t < |s.threads| && s.threads[t].Chosen?
    case LockZip(t) =>
      t < |s.threads| && s.threads[t].WantZip? && s.threads[t].z < |s.zips| && s.zips[s.threads[t].z].owner.None?
    case Check(t, opens) =>
      && t < |s.threads| && s.threads[t].InZip? && s.threads[t].z < |s.zips|
      && (opens ==> s.zips[s.threads[t].z].args.zipPath in disk)
    case Fill(t) =>
      t < |s.threads| && s.threads[t].Filling? && s.threads[t].z < |s.zips|
        && s.zips[s.threads[t].z].args.zipPath in disk
    case Leave(t) => t < |s.threads| && s.threads[t].Leaving? && s.threads[t].z < |s.zips|
  }

  function Move(s: State, t: nat, pc: Pc): State
    requires t < |s.threads|
  {
    s.(threads := s.threads[t := pc])
  }

  function SetZip(s: State, z: nat, zip: Zip): State
    requires z < |s.zips|
  {
    s.(zips := s.zips[z := zip])
  }

  function Next(s: State, act: Action, disk: Disk): State
    requires Enabled(s, act, disk)
  {
    match act
    case Evict(path) => s.(cache := s.cache - {path})
    case Start(t, req) => Move(s, t, WantCache(req))
    case LockCache(t) => Move(s.(cacheOwner := Some(t)), t, InCache(s.threads[t].req))
    case Choose(t) =>
      var req := s.threads[t].req;
      if req.zipPath in s.cache then Move(s, t, Chosen(req, s.cache[req.zipPath]))
      else
        var z := |s.zips|;
        var added := s.(zips := s.zips + [Zip(req, map[], false, None)], cache := s.cache[req.zipPath := z]);
        Move(added, t, Chosen(req, z))
    case UnlockCache(t) => Move(s.(cacheOwner := None), t, WantZip(s.threads[t].req, s.threads[t].z))
    case LockZip(t) =>
      var z := s.threads[t].z;
      Move(SetZip(s, z, s.zips[z].(owner := Some(t))), t, InZip(s.threads[t].req, z))
    case Check(t, opens) =>
      var InZip(req, z) := s.threads[t];
      if s.zips[z].processed then Move(s, t, Leaving(req, z, true))
      else if opens then Move(s, t, Filling(req, z, 0, 0))
      else Move(s, t, Leaving(req, z, false))
    case Fill(t) =>
      var Filling(req, z, at, kept) := s.threads[t];
      var zip := s.zips[z];
      var entries := disk[zip.args.zipPath];
      if at < |entries| then
        var e := entries[at];
        var next := if Kept(e, zip.args.stripPrefix) then kept + 1 else kept;
        Move(SetZip(s, z, zip.(chMap := AddEntry(zip.chMap, e, zip.args, kept))), t, Filling(req, z, at + 1, next))
      else
        Move(SetZip(s, z, zip.(processed := true)), t, Leaving(req, z, true))
    case Leave(t) =>
      var Leaving(req, z, ok) := s.threads[t];
      Move(SetZip(s, z, s.zips[z].(owner := None)), t, Finished(req, z, ok))
  }

  predicate Initial(s: State) {
    && s.cache == map[] && s.zips == [] && s.cacheOwner.None?
    && forall t :: 0 <= t < |s.threads| ==> s.threads[t].Idle?
  }

  // ----- The invariant -----

  /** What a thread knows about the object it holds, or about the one it returned. */
  ghost predicate ThreadInv(s: State, pc: Pc, disk: Disk, allowed: iset<ZipArgs>) {
    && (!pc.Idle? ==> pc.req in allowed)
    && (HasZip(pc) ==> pc.z < |s.zips| && s.zips[pc.z].args.zipPath == pc.req.zipPath)
    && (pc.Filling? ==>
          var zip := s.zips[pc.z];
          && !zip.processed && zip.args.zipPath in disk
          && pc.at <= |disk[zip.args.zipPath]|
          && pc.kept == |KeptOf(disk[zip.args.zipPath][..pc.at], zip.args.stripPrefix)|
          && zip.chMap == IndexOf(disk[zip.args.zipPath][..pc.at], zip.args))
    && (pc.Leaving? ==> pc.ok == s.zips[pc.z].processed)
    && (pc.Finished? && pc.ok ==> s.zips[pc.z].processed)
  }

  ghost predicate BeingFilled(s: State, z: nat) {
    exists t :: 0 <= t < |s.threads| && s.threads[t].Filling? && s.threads[t].z == z
  }

  /** A published index is the fresh one; an unpublished one is empty unless someone is filling it. */
  ghost predicate ZipInv(s: State, z: nat, disk: Disk, allowed: iset<ZipArgs>)
    requires z < |s.zips|
  {
    var zip := s.zips[z];
    && zip.args in allowed
    && (zip.processed ==> zip.args.zipPath in disk && zip.chMap == IndexOf(disk[zip.args.zipPath], zip.args))
    && (!zip.processed && !BeingFilled(s, z) ==> zip.chMap == map[])
  }

  ghost predicate LocksInv(s: State) {
    && (s.cacheOwner.Some? ==> s.cacheOwner.value < |s.threads|)
    && (forall t :: 0 <= t < |s.threads| && HasZip(s.threads[t]) ==> s.threads[t].z < |s.zips|)
    && (forall t :: 0 <= t < |s.threads| ==> (HoldsCache(s.threads[t]) <==> s.cacheOwner == Some(t)))
    && (forall z :: 0 <= z < |s.zips| && s.zips[z].owner.Some? ==> s.zips[z].owner.value < |s.threads|)
    && (forall t, z :: 0 <= t < |s.threads| && 0 <= z < |s.zips| ==>
          (HoldsZip(s.threads[t], z) <==> s.zips[z].owner == Some(t)))
  }

  ghost predicate CacheInv(s: State) {
    forall path :: path in s.cache ==> s.cache[path] < |s.zips| && s.zips[s.cache[path]].args.zipPath == path
  }

  ghost predicate Inv(s: State, disk: Disk, allowed: iset<ZipArgs>) {
    && CacheInv(s) && LocksInv(s)
    && (forall t :: 0 <= t < |s.threads| ==> ThreadInv(s, s.threads[t], disk, allowed))
    && (forall z :: 0 <= z < |s.zips| ==> ZipInv(s, z, disk, allowed))
  }

  ghost predicate Permitted(act: Action, allowed: iset<ZipArgs>) {
    act.Start? ==> act.req in allowed
  }

  lemma {:induction false} InvStart(s: State, disk: Disk, allowed: iset<ZipArgs>)
    requires Initial(s)
    ensures Inv(s, disk, allowed)
  {
  }

  lemma {:induction false} LocksEvict(s: State, act: Action, disk: Disk)
    requires CacheInv(s) && LocksInv(s) && Enabled(s, act, disk)
    requires act.Evict?
    ensures LocksInv(Next(s, act, disk)) && CacheInv(Next(s, act, disk))
  {
    hide IndexOf, KeptOf, AddEntry, Kept;
  }

  /** A step that leaves all locks and objects where they are. */
  lemma {:induction false} LocksSame(s: State, s': State, t: nat)
    requires CacheInv(s) && LocksInv(s)
    requires t < |s.threads| == |s'.threads| && forall u :: 0 <= u < |s.threads| && u != t ==>
        s'.threads[u] == s.threads[u]
    requires s'.cache == s.cache && s'.cacheOwner == s.cacheOwner && |s'.zips| == |s.zips|
    requires forall z :: 0 <= z < |s.zips| ==> s'.zips[z].args == s.zips[z].args && s'.zips[z].owner == s.zips[z].owner
    requires HoldsCache(s'.threads[t]) == HoldsCache(s.threads[t])
    requires forall z: nat :: HoldsZip(s'.threads[t], z) <==> HoldsZip(s.threads[t], z)
    requires HasZip(s'.threads[t]) ==> HasZip(s.threads[t]) && s'.threads[t].z == s.threads[t].z
    ensures CacheInv(s') && LocksInv(s')
  {
    forall u | 0 <= u < |s'.threads|
      ensures HasZip(s'.threads[u]) ==> s'.threads[u].z < |s'.zips|
      ensures HoldsCache(s'.threads[u]) <==> s'.cacheOwner == Some(u)
    {
    }
  }

  lemma {:induction false} LocksMove(s: State, act: Action, disk: Disk)
    requires CacheInv(s) && LocksInv(s) && Enabled(s, act, disk)
    requires act.Start? || act.Check? || act.Fill?
    ensures LocksInv(Next(s, act, disk)) && CacheInv(Next(s, act, disk))
  {
    hide IndexOf, KeptOf, AddEntry, Kept, LocksInv, CacheInv;
    LocksSame(s, Next(s, act, disk), act.t);
  }

  lemma {:induction false} LocksCache(s: State, act: Action, disk: Disk)
    requires CacheInv(s) && LocksInv(s) && Enabled(s, act, disk)
    requires act.LockCache? || act.UnlockCache?
    ensures LocksInv(Next(s, act, disk)) && CacheInv(Next(s, act, disk))
  {
    hide IndexOf, KeptOf, AddEntry, Kept;
  }

  lemma {:induction false} LocksHit(s: State, t: nat, disk: Disk)
    requires CacheInv(s) && LocksInv(s) && Enabled(s, Choose(t), disk) && s.threads[t].req.zipPath in s.cache
    ensures LocksInv(Next(s, Choose(t), disk)) && CacheInv(Next(s, Choose(t), disk))
  {
  }

  lemma {:induction false} LocksMiss(s: State, t: nat, disk: Disk)
    requires CacheInv(s) && LocksInv(s) && Enabled(s, Choose(t), disk) && s.threads[t].req.zipPath !in s.cache
    ensures LocksInv(Next(s, Choose(t), disk)) && CacheInv(Next(s, Choose(t), disk))
  {
  }

  lemma {:induction false} LocksChoose(s: State, act: Action, disk: Disk)
    requires CacheInv(s) && LocksInv(s) && Enabled(s, act, disk)
    requires act.Choose?
    ensures LocksInv(Next(s, act, disk)) && CacheInv(Next(s, act, disk))
  {
    hide CacheInv, LocksInv, Next;
    if s.threads[act.t].req.zipPath in s.cache { LocksHit(s, act.t, disk); } else { LocksMiss(s, act.t, disk); }
  }

  lemma {:induction false} LocksZip(s: State, act: Action, disk: Disk)
    requires CacheInv(s) && LocksInv(s) && Enabled(s, act, disk)
    requires act.LockZip?
    ensures LocksInv(Next(s, act, disk)) && CacheInv(Next(s, act, disk))
  {
    hide IndexOf, KeptOf, AddEntry, Kept;
  }

  lemma {:induction false} LocksLeave(s: State, act: Action, disk: Disk)
    requires CacheInv(s) && LocksInv(s) && Enabled(s, act, disk)
    requires act.Leave?
    ensures LocksInv(Next(s, act, disk)) && CacheInv(Next(s, act, disk))
  {
    hide IndexOf, KeptOf, AddEntry, Kept;
  }

  ghost predicate ThreadsInv(s: State, disk: Disk, allowed: iset<ZipArgs>) {
    forall t :: 0 <= t < |s.threads| ==> ThreadInv(s, s.threads[t], disk, allowed)
  }

  ghost predicate ZipsInv(s: State, disk: Disk, allowed: iset<ZipArgs>) {
    forall z :: 0 <= z < |s.zips| ==> ZipInv(s, z, disk, allowed)
  }

  /** The index under construction is the index of the entries read so far. */
  lemma {:induction false} FillAdvances(s: State, t: nat, disk: Disk, allowed: iset<ZipArgs>)
    requires Enabled(s, Fill(t), disk) && ThreadInv(s, s.threads[t], disk, allowed)
    ensures ThreadInv(Next(s, Fill(t), disk), Next(s, Fill(t), disk).threads[t], disk, allowed)
    ensures var zip := Next(s, Fill(t), disk).zips[s.threads[t].z];
            zip.processed ==> zip.chMap == IndexOf(disk[zip.args.zipPath], zip.args)
  {
    hide IndexOf, KeptOf, AddEntry, Kept;
    var pc := s.threads[t];
    var zip := s.zips[pc.z];
    var entries := disk[zip.args.zipPath];
    if pc.at < |entries| {
      IndexStep(entries, zip.args, pc.at);
      var pc' := Next(s, Fill(t), disk).threads[t];
      assert pc'.kept == |KeptOf(entries[..pc'.at], zip.args.stripPrefix)|;
    } else {
      assert entries[..pc.at] == entries;
    }
  }

  /** Writing to one object does not disturb a thread that does not hold it. */
  lemma {:induction false} BystanderKept(s: State, pc: Pc, z: nat, zip: Zip, disk: Disk, allowed: iset<ZipArgs>)
    requires z < |s.zips| && zip.args == s.zips[z].args && (s.zips[z].processed ==> zip.processed)
    requires ThreadInv(s, pc, disk, allowed) && !HoldsZip(pc, z)
    ensures ThreadInv(SetZip(s, z, zip), pc, disk, allowed)
  {
    hide IndexOf, KeptOf;
  }

  lemma {:induction false} SameZips(s: State, s': State, pc: Pc, disk: Disk, allowed: iset<ZipArgs>)
    requires s'.zips == s.zips && ThreadInv(s, pc, disk, allowed)
    ensures ThreadInv(s', pc, disk, allowed)
  {
    hide IndexOf, KeptOf;
  }

  lemma {:induction false} ThreadsFill(s: State, act: Action, disk: Disk, allowed: iset<ZipArgs>)
    requires Inv(s, disk, allowed) && Enabled(s, act, disk) && act.Fill?
    ensures ThreadsInv(Next(s, act, disk), disk, allowed)
  {
    var s', t := Next(s, act, disk), act.t;
    var z := s.threads[t].z;
    assert ThreadInv(s, s.threads[t], disk, allowed);
    FillAdvances(s, t, disk, allowed);
    assert s.zips[z].owner == Some(t) by { assert HoldsZip(s.threads[t], z); }
    hide IndexOf, KeptOf, AddEntry, Kept, ThreadInv;
    forall u | 0 <= u < |s.threads| && u != t ensures ThreadInv(s', s.threads[u], disk, allowed) {
      assert !HoldsZip(s.threads[u], z);
      assert s' == Move(SetZip(s, z, s'.zips[z]), t, s'.threads[t]);
      BystanderKept(s, s.threads[u], z, s'.zips[z], disk, allowed);
      SameZips(SetZip(s, z, s'.zips[z]), s', s.threads[u], disk, allowed);
    }
  }

  /** Writing to one object disturbs no other one, if the others' builders stay where they are. */
  lemma {:induction false} OtherZipsKept(s: State, s': State, t: nat, z: nat, disk: Disk, allowed: iset<ZipArgs>)
    requires ZipsInv(s, disk, allowed) && t < |s.threads| == |s'.threads| && z < |s.zips| == |s'.zips|
    requires s.threads[t].Filling? && s.threads[t].z == z
    requires forall u :: 0 <= u < |s.threads| && u != t ==> s'.threads[u] == s.threads[u]
    requires forall y :: 0 <= y < |s.zips| && y != z ==> s'.zips[y] == s.zips[y]
    requires ZipInv(s', z, disk, allowed)
    ensures ZipsInv(s', disk, allowed)
  {
    hide IndexOf, KeptOf;
    forall y | 0 <= y < |s.zips| && y != z ensures ZipInv(s', y, disk, allowed) {
      assert ZipInv(s, y, disk, allowed);
      if u :| 0 <= u < |s.threads| && s.threads[u].Filling? && s.threads[u].z == y {
        assert s'.threads[u] == s.threads[u];
      }
    }
  }

  lemma {:induction false} ZipsFill(s: State, act: Action, disk: Disk, allowed: iset<ZipArgs>)
    requires Inv(s, disk, allowed) && Enabled(s, act, disk) && act.Fill?
    ensures ZipsInv(Next(s, act, disk), disk, allowed)
  {
    var t := act.t;
    var z := s.threads[t].z;
    var s' := Next(s, act, disk);
    FillAdvances(s, t, disk, allowed);
    hide IndexOf, KeptOf, AddEntry, Kept, LocksInv, CacheInv, ThreadInv;
    assert ZipInv(s', z, disk, allowed) by {
      assert ZipInv(s, z, disk, allowed);
      assert s'.threads[t].Filling? ==> BeingFilled(s', z);
    }
    hide ZipInv;
    OtherZipsKept(s, s', t, z, disk, allowed);
  }

  lemma {:induction false} BeingFilledKept(s: State, s': State, t: nat, y: nat)
    requires t < |s.threads| == |s'.threads| && !s.threads[t].Filling?
    requires forall u :: 0 <= u < |s.threads| && u != t ==> s'.threads[u] == s.threads[u]
    ensures BeingFilled(s, y) ==> BeingFilled(s', y)
  {
    if u :| 0 <= u < |s.threads| && s.threads[u].Filling? && s.threads[u].z == y {
      assert s'.threads[u].Filling? && s'.threads[u].z == y;
    }
  }

  lemma {:induction false} ThreadsChoose(s: State, act: Action, disk: Disk, allowed: iset<ZipArgs>)
    requires Inv(s, disk, allowed) && Enabled(s, act, disk) && act.Choose?
    ensures ThreadsInv(Next(s, act, disk), disk, allowed)
    ensures ZipsInv(Next(s, act, disk), disk, allowed)
  {
    hide IndexOf, KeptOf, AddEntry, Kept;
    var s' := Next(s, act, disk);
    forall u | 0 <= u < |s.threads| ensures ThreadInv(s', s'.threads[u], disk, allowed) {
      assert ThreadInv(s, s.threads[u], disk, allowed);
    }
    forall y | 0 <= y < |s'.zips| ensures ZipInv(s', y, disk, allowed) {
      assert ThreadInv(s, s.threads[act.t], disk, allowed);
      if y < |s.zips| {
        assert ZipInv(s, y, disk, allowed);
        BeingFilledKept(s, s', act.t, y);
      }
    }
  }

  lemma {:induction false} MoveKeeps(s: State, s': State, t: nat, disk: Disk, allowed: iset<ZipArgs>)
    requires ThreadsInv(s, disk, allowed) && ZipsInv(s, disk, allowed)
    requires t < |s.threads| == |s'.threads| && !s.threads[t].Filling?
    requires forall u :: 0 <= u < |s.threads| && u != t ==> s'.threads[u] == s.threads[u]
    requires |s'.zips| == |s.zips|
    requires forall z :: 0 <= z < |s.zips| ==> s'.zips[z] == s.zips[z].(owner := s'.zips[z].owner)
    requires ThreadInv(s', s'.threads[t], disk, allowed)
    ensures ThreadsInv(s', disk, allowed) && ZipsInv(s', disk, allowed)
  {
    hide IndexOf, KeptOf;
    forall u | 0 <= u < |s.threads| ensures ThreadInv(s', s'.threads[u], disk, allowed) {
      assert ThreadInv(s, s.threads[u], disk, allowed);
    }
    forall y | 0 <= y < |s.zips| ensures ZipInv(s', y, disk, allowed) {
      assert ZipInv(s, y, disk, allowed);
      BeingFilledKept(s, s', t, y);
    }
  }

  /** A build starts from an empty index; an object already built is not touched. */
  lemma {:induction false} ThreadsCheck(s: State, act: Action, disk: Disk, allowed: iset<ZipArgs>)
    requires Inv(s, disk, allowed) && Enabled(s, act, disk) && act.Check?
    ensures ThreadsInv(Next(s, act, disk), disk, allowed)
    ensures ZipsInv(Next(s, act, disk), disk, allowed)
  {
    var s', t := Next(s, act, disk), act.t;
    var z := s.threads[t].z;
    assert ThreadInv(s, s.threads[t], disk, allowed) && ZipInv(s, z, disk, allowed);
    assert s.zips[z].owner == Some(t) by { assert HoldsZip(s.threads[t], z); }
    assert !BeingFilled(s, z) by {
      if u :| 0 <= u < |s.threads| && s.threads[u].Filling? && s.threads[u].z == z {
        assert HoldsZip(s.threads[u], z);
      }
    }
    IndexStart(s.zips[z].args);
    assert ThreadInv(s', s'.threads[t], disk, allowed) by {
      if s'.threads[t].Filling? {
        assert disk[s.zips[z].args.zipPath][..0] == [];
      }
    }
    MoveKeeps(s, s', t, disk, allowed);
  }

  /** The steps that at most change who holds a lock. */
  lemma {:induction false} ThreadsOther(s: State, act: Action, disk: Disk, allowed: iset<ZipArgs>)
    requires Inv(s, disk, allowed) && Enabled(s, act, disk) && Permitted(act, allowed)
    requires !act.Fill? && !act.Choose? && !act.Evict? && !act.Check?
    ensures ThreadsInv(Next(s, act, disk), disk, allowed)
    ensures ZipsInv(Next(s, act, disk), disk, allowed)
  {
    hide IndexOf, KeptOf, AddEntry, Kept, ZipInv, LocksInv, CacheInv;
    var s' := Next(s, act, disk);
    assert ThreadInv(s, s.threads[act.t], disk, allowed);
    MoveKeeps(s, s', act.t, disk, allowed);
  }

  lemma {:induction false} EvictKeeps(s: State, act: Action, disk: Disk, allowed: iset<ZipArgs>)
    requires Inv(s, disk, allowed) && act.Evict?
    ensures ThreadsInv(Next(s, act, disk), disk, allowed)
    ensures ZipsInv(Next(s, act, disk), disk, allowed)
  {
    hide IndexOf, KeptOf;
    var s' := Next(s, act, disk);
    forall u | 0 <= u < |s.threads| ensures ThreadInv(s', s'.threads[u], disk, allowed) {
      assert ThreadInv(s, s.threads[u], disk, allowed);
    }
    forall y | 0 <= y < |s.zips| ensures ZipInv(s', y, disk, allowed) {
      assert ZipInv(s, y, disk, allowed);
      assert BeingFilled(s, y) ==> BeingFilled(s', y);
    }
  }

  lemma {:induction false} InvKept(s: State, act: Action, disk: Disk, allowed: iset<ZipArgs>)
    requires Inv(s, disk, allowed) && Enabled(s, act, disk) && Permitted(act, allowed)
    ensures Inv(Next(s, act, disk), disk, allowed)
  {
    hide IndexOf, KeptOf, AddEntry, Kept, Next;
    hide CacheInv, LocksInv, ThreadInv, ZipInv;
    match act {
      case Evict(_) => LocksEvict(s, act, disk); EvictKeeps(s, act, disk, allowed);
      case Start(_, _) => LocksMove(s, act, disk); ThreadsOther(s, act, disk, allowed);
      case Check(_, _) => LocksMove(s, act, disk); ThreadsCheck(s, act, disk, allowed);
      case LockCache(_) => LocksCache(s, act, disk); ThreadsOther(s, act, disk, allowed);
      case UnlockCache(_) => LocksCache(s, act, disk); ThreadsOther(s, act, disk, allowed);
      case Choose(_) => LocksChoose(s, act, disk); ThreadsChoose(s, act, disk, allowed);
      case LockZip(_) => LocksZip(s, act, disk); ThreadsOther(s, act, disk, allowed);
      case Fill(_) => LocksMove(s, act, disk); ThreadsFill(s, act, disk, allowed); ZipsFill(s, act, disk, allowed);
      case Leave(_) => LocksLeave(s, act, disk); ThreadsOther(s, act, disk, allowed);
    }
  }

  // ----- Whole runs -----

  /** A run: each action is enabled where it happens, and calls use permitted arguments. */
  ghost predicate Run(s: State, acts: seq<Action>, s': State, disk: Disk, allowed: iset<ZipArgs>)
    decreases |acts|
  {
    if acts == [] then s' == s
    else
      && Enabled(s, acts[0], disk) && Permitted(acts[0], allowed)
      && Run(Next(s, acts[0], disk), acts[1..], s', disk, allowed)
  }

  lemma {:induction false} RunKeepsInv(s: State, acts: seq<Action>, s': State, disk: Disk, allowed: iset<ZipArgs>)
    requires Inv(s, disk, allowed) && Run(s, acts, s', disk, allowed)
    ensures Inv(s', disk, allowed)
    decreases |acts|
  {
    hide Inv, Next, Enabled, Permitted;
    if acts != [] {
      InvKept(s, acts[0], disk, allowed);
      RunKeepsInv(Next(s, acts[0], disk), acts[1..], s', disk, allowed);
    }
  }

  /** Every archive path is always asked for with the same prefix and first inode number. */
  ghost predicate OneUsePerPath(allowed: iset<ZipArgs>) {
    forall a, b :: a in allowed && b in allowed && a.zipPath == b.zipPath ==> a == b
  }

  /**
   Cache refinement. In every state any number of threads can reach, under any interleaving,
   evictions and failed opens, a call that succeeded holds exactly the index a fresh sequential
   build of its own arguments gives. Objects that coexist for one path after an eviction agree,
   so inode numbers survive eviction; and an object nobody is building is either complete or
   empty, so a failed open can be retried.
   */
  lemma {:induction false} CacheRefinement(s: State, acts: seq<Action>, s': State, disk: Disk, allowed: iset<ZipArgs>)
    requires Initial(s) && Run(s, acts, s', disk, allowed) && OneUsePerPath(allowed)
    ensures forall t | 0 <= t < |s'.threads| && s'.threads[t].Finished? && s'.threads[t].ok ::
              var req, z := s'.threads[t].req, s'.threads[t].z;
              z < |s'.zips| && req.zipPath in disk && s'.zips[z].chMap == IndexOf(disk[req.zipPath], req)
    ensures forall x, y | 0 <= x < |s'.zips| && 0 <= y < |s'.zips| && s'.zips[x].args.zipPath == s'.zips[y].args.zipPath
              && s'.zips[x].processed && s'.zips[y].processed :: s'.zips[x].chMap == s'.zips[y].chMap
    ensures forall z | 0 <= z < |s'.zips| && s'.zips[z].owner.None? && !s'.zips[z].processed ::
        s'.zips[z].chMap == map[]
  {
    InvStart(s, disk, allowed);
    RunKeepsInv(s, acts, s', disk, allowed);
    hide IndexOf, KeptOf;
    forall t | 0 <= t < |s'.threads| && s'.threads[t].Finished? && s'.threads[t].ok
      ensures s'.threads[t].z < |s'.zips| && s'.threads[t].req.zipPath in disk
              && s'.zips[s'.threads[t].z].chMap == IndexOf(disk[s'.threads[t].req.zipPath], s'.threads[t].req)
    {
      assert ThreadInv(s', s'.threads[t], disk, allowed);
      assert ZipInv(s', s'.threads[t].z, disk, allowed);
    }
    forall z | 0 <= z < |s'.zips| && s'.zips[z].owner.None? && !s'.zips[z].processed ensures s'.zips[z].chMap == map[] {
      assert ZipInv(s', z, disk, allowed);
      if t :| 0 <= t < |s'.threads| && s'.threads[t].Filling? && s'.threads[t].z == z {
        assert HoldsZip(s'.threads[t], z);
      }
    }
    forall x, y | 0 <= x < |s'.zips| && 0 <= y < |s'.zips| && s'.zips[x].args.zipPath == s'.zips[y].args.zipPath
                  && s'.zips[x].processed && s'.zips[y].processed ensures s'.zips[x].chMap == s'.zips[y].chMap {
      assert ZipInv(s', x, disk, allowed) && ZipInv(s', y, disk, allowed);
    }
  }

  /** A state that some run from an initial state leads to. */
  ghost predicate Reachable(s: State, disk: Disk, allowed: iset<ZipArgs>) {
    exists start, acts :: Initial(start) && Run(start, acts, s, disk, allowed)
  }

  /** What a call that has returned gave its thread: None if the archive did not open. */
  function Answer(s: State, t: nat): Option<Index>
    requires t < |s.threads| && s.threads[t].Finished? && s.threads[t].z < |s.zips|
  {
    if s.threads[t].ok then Some(s.zips[s.threads[t].z].chMap) else None
  }

  lemma {:induction false} AnswerIsFresh(s: State, t: nat, disk: Disk, allowed: iset<ZipArgs>)
    requires Reachable(s, disk, allowed) && OneUsePerPath(allowed)
    requires t < |s.threads| && s.threads[t].Finished? && s.threads[t].z < |s.zips|
    ensures var req := s.threads[t].req;
            Answer(s, t).Some? ==> req.zipPath in disk && Answer(s, t).value == IndexOf(disk[req.zipPath], req)
  {
    hide Run, Initial, IndexOf, OneUsePerPath;
    var start, acts :| Initial(start) && Run(start, acts, s, disk, allowed);
    CacheRefinement(start, acts, s, disk, allowed);
  }

  lemma {:induction false} StepKeepsPublished(s: State, act: Action, disk: Disk, allowed: iset<ZipArgs>, z: nat)
    requires Inv(s, disk, allowed) && Enabled(s, act, disk)
    requires z < |s.zips| && s.zips[z].processed
    ensures var n := Next(s, act, disk);
            z < |n.zips| && n.zips[z] == s.zips[z].(owner := n.zips[z].owner)
  {
    hide IndexOf, KeptOf, AddEntry, Kept, LocksInv, CacheInv, ZipInv;
    if act.Fill? { assert ThreadInv(s, s.threads[act.t], disk, allowed); }
  }

  /** Once published, an index never changes again, whatever happens to the cache. */
  lemma {:induction false} PublishedStays(s: State, acts: seq<Action>, s': State, disk: Disk, allowed: iset<ZipArgs>,
                                          z: nat)
    requires Inv(s, disk, allowed) && Run(s, acts, s', disk, allowed)
    requires z < |s.zips| && s.zips[z].processed
    ensures z < |s'.zips| && s'.zips[z].processed
    ensures s'.zips[z].args == s.zips[z].args && s'.zips[z].chMap == s.zips[z].chMap
    decreases |acts|
  {
    if acts != [] {
      var n := Next(s, acts[0], disk);
      InvKept(s, acts[0], disk, allowed);
      StepKeepsPublished(s, acts[0], disk, allowed, z);
      hide Inv, Next, Enabled, Permitted;
      PublishedStays(n, acts[1..], s', disk, allowed, z);
    }
  }

  // ----- Why the proviso is needed -----

  lemma {:induction false} PutHas(index: Index, p: Placed<Listed>)
    requires p.Valid()
    ensures Lists(Put(index, p), p.Dir(), p.name)
  {
  }

  lemma {:induction false} ListsSomething(entries: seq<Entry>, a: ZipArgs)
    ensures IndexOf(entries, a) == map[] <==> KeptOf(entries, a.stripPrefix) == []
  {
    hide Kept, KeptOf, Clean, Split, Join, Put;
    var ps := PlacementsOf(entries, a);
    assert |ps| == |KeptOf(entries, a.stripPrefix)|;
    if ps != [] {
      var p := ps[|ps| - 1];
      assert p.Dir() in Put(Fold(ps[..|ps| - 1]), p) by { PutHas(Fold(ps[..|ps| - 1]), p); }
    }
  }

  lemma {:induction false} SomeName(entries: seq<Entry>, a: ZipArgs) returns (d: string, n: string)
    requires KeptOf(entries, a.stripPrefix) != []
    ensures Lists(IndexOf(entries, a), d, n)
  {
    hide Kept, KeptOf, Clean, Split, Join, Put;
    var ps := PlacementsOf(entries, a);
    assert |ps| == |KeptOf(entries, a.stripPrefix)|;
    var p := ps[|ps| - 1];
    d, n := p.Dir(), p.name;
    PutHas(Fold(ps[..|ps| - 1]), p);
  }

  /**
   The cache is keyed by the archive path alone. Two fresh builds of one archive whose numbers do
   not meet, as those of two targets never do, are equal exactly when both keep nothing.
   */
  lemma {:induction false} OtherArgsDiffer(entries: seq<Entry>, a: ZipArgs, b: ZipArgs)
    requires forall i, j :: 0 <= i < |KeptOf(entries, a.stripPrefix)| && 0 <= j < |KeptOf(entries, b.stripPrefix)| ==>
               InoAt(a, i) != InoAt(b, j)
    ensures IndexOf(entries, a) == IndexOf(entries, b)
            <==> KeptOf(entries, a.stripPrefix) == [] && KeptOf(entries, b.stripPrefix) == []
  {
    hide IndexOf, KeptOf, InoAt, Lists, LastPlaced;
    ListsSomething(entries, a);
    ListsSomething(entries, b);
    if IndexOf(entries, a) == IndexOf(entries, b) && IndexOf(entries, a) != map[] {
      var d, n := SomeName(entries, a);
      var i := NumberOfListed(entries, a, d, n);
      var j := NumberOfListed(entries, b, d, n);
    }
  }

  lemma {:induction false} SamePosition(ps: seq<Placed<Listed>>, qs: seq<Placed<Listed>>, d: string, n: string, i: nat,
                                        j: nat)
    requires |ps| == |qs| && forall k :: 0 <= k < |ps| ==> ps[k].dirs == qs[k].dirs && ps[k].name == qs[k].name
    requires LastPlaced(ps, d, n, i) && LastPlaced(qs, d, n, j)
    ensures i == j
  {
    assert WrittenAt(ps[i], d, n) && WrittenAt(qs[i], d, n);
    assert WrittenAt(ps[j], d, n) && WrittenAt(qs[j], d, n);
  }

  lemma {:induction false} SamePlaces(entries: seq<Entry>, a: ZipArgs, b: ZipArgs)
    requires a.zipPath == b.zipPath && a.stripPrefix == b.stripPrefix
    ensures var ps, qs := PlacementsOf(entries, a), PlacementsOf(entries, b);
            |ps| == |qs| && forall k :: 0 <= k < |ps| ==> ps[k].dirs == qs[k].dirs && ps[k].name == qs[k].name
  {
    hide Kept, KeptOf, Clean, Split, Join;
  }

  lemma {:induction false} ModCancel(x: nat, y: nat, k: nat)
    requires x < TWO_64 && y < TWO_64
    ensures (x + k) % TWO_64 == (y + k) % TWO_64 ==> x == y
  {
    if (x + k) % TWO_64 == (y + k) % TWO_64 {
      var q, r := (x + k) / TWO_64, (y + k) / TWO_64;
      assert x - y == TWO_64 * (q - r);
    }
  }

  /** With equal prefixes the first numbers decide: equal builds exactly for equal numbers, or nothing kept. */
  lemma {:induction false} OtherInoStartDiffers(entries: seq<Entry>, a: ZipArgs, b: ZipArgs)
    requires a.zipPath == b.zipPath && a.stripPrefix == b.stripPrefix
    requires a.inoStart < TWO_64 && b.inoStart < TWO_64
    ensures IndexOf(entries, a) == IndexOf(entries, b)
        <==> a.inoStart == b.inoStart || KeptOf(entries, a.stripPrefix) == []
  {
    hide IndexOf, KeptOf, Lists, LastPlaced, PlacementsOf;
    ListsSomething(entries, a);
    ListsSomething(entries, b);
    if KeptOf(entries, a.stripPrefix) != [] && IndexOf(entries, a) == IndexOf(entries, b) {
      var d, n := SomeName(entries, a);
      var i := NumberOfListed(entries, a, d, n);
      var j := NumberOfListed(entries, b, d, n);
      SamePlaces(entries, a, b);
      SamePosition(PlacementsOf(entries, a), PlacementsOf(entries, b), d, n, i, j);
      ModCancel(a.inoStart, b.inoStart, i);
    }
    if a.inoStart == b.inoStart { assert a == b; }
  }

  lemma {:induction false} RunOne(s: State, act: Action, acts: seq<Action>, s': State, disk: Disk,
                                  allowed: iset<ZipArgs>)
    requires Enabled(s, act, disk) && Permitted(act, allowed) && Run(Next(s, act, disk), acts, s', disk, allowed)
    ensures Run(s, [act] + acts, s', disk, allowed)
  {
    hide Enabled, Permitted, Next;
    assert ([act] + acts)[1..] == acts;
  }

  lemma {:induction false} RunConcat(s: State, acts: seq<Action>, mid: State, more: seq<Action>, s': State,
                                     disk: Disk, allowed: iset<ZipArgs>)
    requires Run(s, acts, mid, disk, allowed) && Run(mid, more, s', disk, allowed)
    ensures Run(s, acts + more, s', disk, allowed)
    decreases |acts|
  {
    hide Enabled, Permitted, Next;
    if acts == [] {
      assert acts + more == more;
    } else {
      RunConcat(Next(s, acts[0], disk), acts[1..], mid, more, s', disk, allowed);
      assert (acts + more)[1..] == acts[1..] + more;
    }
  }

  predicate MayStart(pc: Pc) {
    pc.Idle? || pc.Finished?
  }

  /** The state when thread t has found or added its object and left the cache lock. */
  function Entered(s: State, t: nat, req: ZipArgs): State
    requires t < |s.threads|
  {
    if req.zipPath in s.cache then Move(s, t, WantZip(req, s.cache[req.zipPath]))
    else Move(s.(zips := s.zips + [Zip(req, map[], false, None)], cache := s.cache[req.zipPath := |s.zips|]),
              t, WantZip(req, |s.zips|))
  }

  lemma {:induction false} RunNone(s: State, disk: Disk, allowed: iset<ZipArgs>)
    ensures Run(s, [], s, disk, allowed)
  {
  }

  /** With the cache lock free, a thread can get that far on its own. */
  lemma {:induction false} Enter(s: State, t: nat, req: ZipArgs, disk: Disk, allowed: iset<ZipArgs>)
    returns (acts: seq<Action>)
    requires t < |s.threads| && MayStart(s.threads[t]) && s.cacheOwner.None?
    requires req in allowed && req.inoStart < TWO_64
    ensures Run(s, acts, Entered(s, t, req), disk, allowed)
  {
    hide Run;
    var s1 := Next(s, Start(t, req), disk);
    var s2 := Next(s1, LockCache(t), disk);
    var s3 := Next(s2, Choose(t), disk);
    var s4 := Next(s3, UnlockCache(t), disk);
    assert s4 == Entered(s, t, req);
    RunNone(s4, disk, allowed);
    RunOne(s3, UnlockCache(t), [], s4, disk, allowed);
    acts := [UnlockCache(t)] + [];
    RunOne(s2, Choose(t), acts, s4, disk, allowed);
    acts := [Choose(t)] + acts;
    RunOne(s1, LockCache(t), acts, s4, disk, allowed);
    acts := [LockCache(t)] + acts;
    RunOne(s, Start(t, req), acts, s4, disk, allowed);
    acts := [Start(t, req)] + acts;
  }

  /** An object that is built already is handed over as it is. */
  lemma {:induction false} TakeBuilt(s: State, t: nat, req: ZipArgs, z: nat, disk: Disk, allowed: iset<ZipArgs>)
    returns (acts: seq<Action>)
    requires t < |s.threads| && s.threads[t] == WantZip(req, z)
    requires z < |s.zips| && s.zips[z].processed && s.zips[z].owner.None?
    ensures Run(s, acts, Move(s, t, Finished(req, z, true)), disk, allowed)
  {
    hide Run, AddEntry, Kept;
    var s1 := Next(s, LockZip(t), disk);
    var s2 := Next(s1, Check(t, false), disk);
    var s3 := Next(s2, Leave(t), disk);
    assert s3 == Move(s, t, Finished(req, z, true));
    RunNone(s3, disk, allowed);
    RunOne(s2, Leave(t), [], s3, disk, allowed);
    acts := [Leave(t)] + [];
    RunOne(s1, Check(t, false), acts, s3, disk, allowed);
    acts := [Check(t, false)] + acts;
    RunOne(s, LockZip(t), acts, s3, disk, allowed);
    acts := [LockZip(t)] + acts;
  }

  /** s' is s with thread t at pc and object z built. */
  predicate Built(s: State, s': State, t: nat, z: nat, pc: Pc)
    requires z < |s.zips| && t < |s.threads|
  {
    && |s'.zips| == |s.zips| && s' == Move(SetZip(s, z, s'.zips[z]), t, pc)
    && s'.zips[z].args == s.zips[z].args && s'.zips[z].owner == s.zips[z].owner && s'.zips[z].processed
  }

  lemma {:induction false} FillAll(s: State, t: nat, disk: Disk, allowed: iset<ZipArgs>)
    returns (acts: seq<Action>, s': State)
    requires t < |s.threads| && s.threads[t].Filling? && s.threads[t].z < |s.zips|
    requires s.zips[s.threads[t].z].args.zipPath in disk
    ensures Run(s, acts, s', disk, allowed)
    ensures Built(s, s', t, s.threads[t].z, Leaving(s.threads[t].req, s.threads[t].z, true))
    decreases |disk[s.zips[s.threads[t].z].args.zipPath]| - s.threads[t].at
  {
    hide Run, AddEntry, Kept;
    var next := Next(s, Fill(t), disk);
    if s.threads[t].at < |disk[s.zips[s.threads[t].z].args.zipPath]| {
      acts, s' := FillAll(next, t, disk, allowed);
    } else {
      acts, s' := [], next;
      RunNone(next, disk, allowed);
    }
    RunOne(s, Fill(t), acts, s', disk, allowed);
    acts := [Fill(t)] + acts;
  }

  /** An object that is not built yet is built, when the archive opens. */
  lemma {:induction false} BuildNow(s: State, t: nat, req: ZipArgs, z: nat, disk: Disk, allowed: iset<ZipArgs>)
    returns (acts: seq<Action>, s': State)
    requires t < |s.threads| && s.threads[t] == WantZip(req, z)
    requires z < |s.zips| && !s.zips[z].processed && s.zips[z].owner.None? && s.zips[z].args.zipPath in disk
    ensures Run(s, acts, s', disk, allowed) && Built(s, s', t, z, Finished(req, z, true))
  {
    hide Run, AddEntry, Kept;
    var s1 := Next(s, LockZip(t), disk);
    var s2 := Next(s1, Check(t, true), disk);
    var fills, s3 := FillAll(s2, t, disk, allowed);
    s' := Next(s3, Leave(t), disk);
    RunNone(s', disk, allowed);
    RunOne(s3, Leave(t), [], s', disk, allowed);
    RunConcat(s2, fills, s3, [Leave(t)] + [], s', disk, allowed);
    RunOne(s1, Check(t, true), fills + ([Leave(t)] + []), s', disk, allowed);
    RunOne(s, LockZip(t), [Check(t, true)] + (fills + ([Leave(t)] + [])), s', disk, allowed);
    acts := [LockZip(t)] + ([Check(t, true)] + (fills + ([Leave(t)] + [])));
  }

  lemma {:induction false} BuiltIsFresh(s: State, z: nat, disk: Disk, allowed: iset<ZipArgs>)
    requires Inv(s, disk, allowed) && z < |s.zips| && s.zips[z].processed
    ensures s.zips[z].args.zipPath in disk && s.zips[z].chMap == IndexOf(disk[s.zips[z].args.zipPath], s.zips[z].args)
  {
    hide IndexOf, KeptOf, LocksInv, CacheInv, ThreadInv;
    assert ZipInv(s, z, disk, allowed);
  }

  /**
   A run in which the proviso fails: a thread asks for an archive with arguments a and then with
   arguments b. Both calls succeed and the second one gets the first one's index.
   */
  lemma {:induction false} FirstRequestWins(disk: Disk, a: ZipArgs, b: ZipArgs) returns (s: State)
    requires a.zipPath == b.zipPath && a.zipPath in disk && a.inoStart < TWO_64 && b.inoStart < TWO_64
    ensures Reachable(s, disk, iset{a, b})
    ensures |s.threads| == 1 && |s.zips| == 1 && s.threads[0] == Finished(b, 0, true)
    ensures Answer(s, 0) == Some(IndexOf(disk[b.zipPath], a))
  {
    hide Run, IndexOf, Inv;
    var allowed := iset{a, b};
    var start := State(map[], [], None, [Idle]);
    var enter := Enter(start, 0, a, disk, allowed);
    var s1 := Entered(start, 0, a);
    var build, s2 := BuildNow(s1, 0, a, 0, disk, allowed);
    RunConcat(start, enter, s1, build, s2, disk, allowed);
    var again := Enter(s2, 0, b, disk, allowed);
    var s3 := Entered(s2, 0, b);
    var take := TakeBuilt(s3, 0, b, 0, disk, allowed);
    s := Move(s3, 0, Finished(b, 0, true));
    RunConcat(s2, again, s3, take, s, disk, allowed);
    RunConcat(start, enter + build, s2, again + take, s, disk, allowed);
    InvStart(start, disk, allowed);
    RunKeepsInv(start, enter + build + (again + take), s, disk, allowed);
    BuiltIsFresh(s, 0, disk, allowed);
  }

  // ----- Progress -----

  /** The thread an action belongs to; evictions and new calls are not part of a call's progress. */
  predicate Internal(act: Action) {
    !act.Evict? && !act.Start?
  }

  /** A thread that waits for no lock can always move. */
  lemma {:induction false} Unblocked(s: State, disk: Disk, allowed: iset<ZipArgs>, t: nat) returns (act: Action)
    requires Inv(s, disk, allowed)
    requires t < |s.threads| && !s.threads[t].Idle? && !s.threads[t].Finished? && !s.threads[t].WantZip?
    requires s.threads[t].WantCache? ==> s.cacheOwner.None?
    ensures Internal(act) && Enabled(s, act, disk)
  {
    hide IndexOf, KeptOf, ZipInv, CacheInv, LocksInv;
    assert ThreadInv(s, s.threads[t], disk, allowed);
    match s.threads[t] {
      case WantCache(_) => act := LockCache(t);
      case InCache(_) => act := Choose(t);
      case Chosen(_, _) => act := UnlockCache(t);
      case InZip(_, _) => act := Check(t, false);
      case Filling(_, _, _, _) => act := Fill(t);
      case Leaving(_, _, _) => act := Leave(t);
    }
  }

  /** Some thread inside GetZip can move in every reachable state, without outside help. */
  lemma {:induction false} NoDeadlock(s: State, disk: Disk, allowed: iset<ZipArgs>, t: nat) returns (act: Action)
    requires Inv(s, disk, allowed)
    requires t < |s.threads| && !s.threads[t].Idle? && !s.threads[t].Finished?
    ensures Internal(act) && Enabled(s, act, disk)
  {
    hide IndexOf, KeptOf, ZipInv, CacheInv;
    if s.threads[t].WantCache? && s.cacheOwner.Some? {
      act := Unblocked(s, disk, allowed, s.cacheOwner.value);
    } else if s.threads[t].WantZip? {
      assert ThreadInv(s, s.threads[t], disk, allowed);
      var zip := s.zips[s.threads[t].z];
      if zip.owner.Some? {
        assert HoldsZip(s.threads[zip.owner.value], s.threads[t].z);
        act := Unblocked(s, disk, allowed, zip.owner.value);
      } else {
        act := LockZip(t);
      }
    } else {
      act := Unblocked(s, disk, allowed, t);
    }
  }

  function Length(req: ZipArgs, disk: Disk): nat {
    if req.zipPath in disk then |disk[req.zipPath]| else 0
  }

  /** How many steps a call may still take. */
  function Rank(pc: Pc, disk: Disk): nat {
    match pc
    case WantCache(req) => Length(req, disk) + 7
    case InCache(req) => Length(req, disk) + 6
    case Chosen(req, _) => Length(req, disk) + 5
    case WantZip(req, _) => Length(req, disk) + 4
    case InZip(req, _) => Length(req, disk) + 3
    case Filling(req, _, at, _) => 2 + if at <= Length(req, disk) then Length(req, disk) - at else 0
    case Leaving(_, _, _) => 1
    case _ => 0
  }

  function Work(threads: seq<Pc>, disk: Disk): nat {
    if threads == [] then 0 else Work(threads[..|threads| - 1], disk) + Rank(threads[|threads| - 1], disk)
  }

  lemma {:induction false} WorkMove(threads: seq<Pc>, t: nat, pc: Pc, disk: Disk)
    requires t < |threads|
    ensures Work(threads[t := pc], disk) == Work(threads, disk) - Rank(threads[t], disk) + Rank(pc, disk)
  {
    hide Rank;
    var m := |threads| - 1;
    if t < m {
      WorkMove(threads[..m], t, pc, disk);
      assert threads[t := pc][..m] == threads[..m][t := pc];
    } else {
      assert threads[t := pc][..m] == threads[..m];
    }
  }

  lemma {:induction false} StepMovesOne(s: State, act: Action, disk: Disk)
    requires Enabled(s, act, disk) && !act.Evict?
    ensures act.t < |s.threads| == |Next(s, act, disk).threads|
    ensures Next(s, act, disk).threads == s.threads[act.t := Next(s, act, disk).threads[act.t]]
  {
    hide AddEntry, Kept;
  }

  lemma {:induction false} EvictMovesNone(s: State, act: Action, disk: Disk)
    requires Enabled(s, act, disk) && act.Evict?
    ensures Next(s, act, disk).threads == s.threads
  {
  }

  lemma {:induction false} StepLowersRank(s: State, act: Action, disk: Disk)
    requires Enabled(s, act, disk) && Internal(act)
    requires act.Fill? ==> s.zips[s.threads[act.t].z].args.zipPath == s.threads[act.t].req.zipPath
    ensures act.t < |s.threads| == |Next(s, act, disk).threads|
    ensures Rank(Next(s, act, disk).threads[act.t], disk) < Rank(s.threads[act.t], disk)
  {
    hide AddEntry, Kept;
  }

  lemma {:induction false} BuilderHasItsArchive(s: State, t: nat, disk: Disk, allowed: iset<ZipArgs>)
    requires Inv(s, disk, allowed) && Enabled(s, Fill(t), disk)
    ensures s.zips[s.threads[t].z].args.zipPath == s.threads[t].req.zipPath
  {
    hide IndexOf, KeptOf, AddEntry, Kept, LocksInv, CacheInv, ZipInv;
    assert ThreadInv(s, s.threads[t], disk, allowed);
  }

  lemma {:induction false} LowersRank(s: State, act: Action, disk: Disk, allowed: iset<ZipArgs>)
    requires Inv(s, disk, allowed) && Enabled(s, act, disk) && Internal(act)
    ensures act.t < |s.threads| == |Next(s, act, disk).threads|
    ensures Rank(Next(s, act, disk).threads[act.t], disk) < Rank(s.threads[act.t], disk)
  {
    if act.Fill? { BuilderHasItsArchive(s, act.t, disk, allowed); }
    hide Inv, Next, Rank;
    StepLowersRank(s, act, disk);
  }

  /**
   Every step inside a call uses up some of the remaining work and an eviction adds none, so
   between new calls only finitely many steps are possible: with NoDeadlock, every call returns.
   */
  lemma {:induction false} StepsUseUpWork(s: State, act: Action, disk: Disk, allowed: iset<ZipArgs>)
    requires Inv(s, disk, allowed) && Enabled(s, act, disk)
    ensures Internal(act) ==> Work(Next(s, act, disk).threads, disk) < Work(s.threads, disk)
    ensures act.Evict? ==> Work(Next(s, act, disk).threads, disk) == Work(s.threads, disk)
  {
    hide Inv, Work, Next, Enabled, Rank;
    if Internal(act) {
      StepMovesOne(s, act, disk);
      LowersRank(s, act, disk, allowed);
      WorkMove(s.threads, act.t, Next(s, act, disk).threads[act.t], disk);
    } else if act.Evict? {
      EvictMovesNone(s, act, disk);
    }
  }
}
