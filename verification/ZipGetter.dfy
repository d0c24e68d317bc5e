/**
 The archive objects and the cache in front of them, as the single-threaded code sees them.
 What many threads do with them is the subject of ZipCache.

 `disk` gives the entry list of every archive and never changes. Whether zip.OpenReader succeeds
 at a particular call is the parameter `archive`.
 */
module ZipGetter {
  import opened Wrappers
  import opened NestedIndex
  import opened Paths
  import opened ZipIndex

  type Disk = map<string, seq<Entry>>

  /** zip.OpenReader either fails or yields the archive's entry list. */
  predicate OpenResult(disk: Disk, path: string, archive: Option<seq<Entry>>) {
    archive.Some? ==> path in disk && archive.value == disk[path]
  }

  /** The build ends the process on any other kind of kept entry. */
  predicate NoFatalEntry(entries: seq<Entry>, prefix: string) {
    forall k :: 0 <= k < |entries| && Kept(entries[k], prefix) ==>
        entries[k].kind.Directory? || entries[k].kind.Regular?
  }

  lemma {:induction false} FirstPart(index: Index, parts: seq<string>, p: Placed<Listed>)
    ensures Chain(parts, 0) == "" && EnsureDirs(index, p.dirs, 0) == index
  {
  }

  /** One iteration of the inner loop, as the placement has it. */
  lemma {:induction false} OnePart(index: Index, parts: seq<string>, p: Placed<Listed>, i: nat)
    requires i < |parts| && p.dirs == Chains(parts)
    ensures p.dirs[i] == Chain(parts, i) && Chain(parts, i + 1) == Join(Chain(parts, i), parts[i])
    ensures EnsureDirs(index, p.dirs, i + 1) == EnsureDir(EnsureDirs(index, p.dirs, i), p.dirs[i])
    ensures i == |parts| - 1 ==>
              var dirs := EnsureDirs(index, p.dirs, i + 1);
              p.Dir() == p.dirs[i] && p.Dir() in dirs
                && Put(index, p) == dirs[p.Dir() := dirs[p.Dir()][p.name := p.value]]
  {
    hide Join;
  }

  class ProcessedZip {
    const args: ZipArgs
    var chMap: Index
    var processed: bool

    /** Unprocessed archives are empty, processed ones hold exactly the fresh index. */
    ghost predicate Valid(disk: Disk)
      reads this
    {
      && args.inoStart < TWO_64
      && (!processed ==> chMap == map[])
      && (processed ==> args.zipPath in disk && chMap == IndexOf(disk[args.zipPath], args))
    }

    constructor (args: ZipArgs)
      ensures this.args == args && chMap == map[] && !processed
    {
      this.args := args;
      chMap := map[];
      processed := false;
    }

    /** One iteration of the outer loop, with the loop over the parts of the path. */
    method Record(e: Entry, curIno: nat, ghost k: nat) returns (kept: bool)
      requires curIno == InoAt(args, k)
      requires Kept(e, args.stripPrefix) ==> e.kind.Directory? || e.kind.Regular?
      modifies this`chMap
      ensures kept == Kept(e, args.stripPrefix)
      ensures chMap == AddEntry(old(chMap), e, args, k)
    {
      hide Clean, Split, Join, InoAt, Chain, EnsureDirs, Put, Chains;
      var cleaned := Clean(e.name);
      if !HasPrefix(cleaned, args.stripPrefix) || cleaned[|args.stripPrefix|..] == "" {
        assert !Kept(e, args.stripPrefix);
        return false;
      }
      var parts := Split(cleaned[|args.stripPrefix|..]);
      assert Kept(e, args.stripPrefix) && parts == Parts(e, args.stripPrefix);
      ghost var p := PlacementOf(e, args, k);
      assert p.name == parts[|parts| - 1] && |p.dirs| == |parts|;
      hide PlacementOf, Parts, Stripped, Kept;
      FirstPart(chMap, parts, p);
      var prev := "";
      for ind := 0 to |parts|
        invariant prev == Chain(parts, ind)
        invariant ind < |parts| ==> chMap == EnsureDirs(old(chMap), p.dirs, ind)
        invariant ind == |parts| ==> chMap == Put(old(chMap), p)
      {
        var part := parts[ind];
        OnePart(old(chMap), parts, p, ind);
        if prev !in chMap {
          chMap := chMap[prev := map[]];
        }
        var fullPath := Join(prev, part);
        if ind == |parts| - 1 {
          var fileData := if e.kind.Directory? then None else Some(FileData(e.header, args.zipPath));
          chMap := chMap[prev := chMap[prev][part := Listed(curIno, fileData)]];
        }
        prev := fullPath;
      }
      return true;
    }

    method ProcessZip(archive: Option<seq<Entry>>, ghost disk: Disk) returns (ok: bool)
      requires Valid(disk) && OpenResult(disk, args.zipPath, archive)
      requires archive.Some? ==> NoFatalEntry(archive.value, args.stripPrefix)
      modifies this
      ensures Valid(disk)
      ensures ok <==> processed
      ensures ok <==> old(processed) || archive.Some?
      ensures ok ==> chMap == IndexOf(disk[args.zipPath], args)
      ensures !ok || old(processed) ==> unchanged(this)
    {
      hide Kept, KeptOf, IndexOf, AddEntry, InoAt;
      if processed {
        return true;
      }
      IndexStart(args);
      var curIno := args.inoStart;
      if archive.None? {
        return false;
      }
      var entries := archive.value;
      assert entries[..0] == [];
      for at := 0 to |entries|
        invariant !processed && curIno == InoAt(args, |KeptOf(entries[..at], args.stripPrefix)|)
        invariant chMap == IndexOf(entries[..at], args)
      {
        IndexStep(entries, args, at);
        InoStep(args, |KeptOf(entries[..at], args.stripPrefix)|);
        var kept := Record(entries[at], curIno, |KeptOf(entries[..at], args.stripPrefix)|);
        if kept {
          curIno := (curIno + 1) % TWO_64;
        }
      }
      assert entries[..|entries|] == entries;
      processed := true;
      return true;
    }
  }

  const CAPACITY := 30

  class ZipCacheObject {
    var cache: map<string, ProcessedZip>

    ghost predicate Valid(disk: Disk)
      reads this, cache.Values
    {
      && |cache| <= CAPACITY
      && forall path :: path in cache ==> cache[path].args.zipPath == path && cache[path].Valid(disk)
    }

    constructor ()
      ensures cache == map[]
    {
      cache := map[];
    }

    /** Expiry or any other removal: one key is gone, the objects themselves stay as they are. */
    method Evict(path: string, ghost disk: Disk)
      requires Valid(disk)
      modifies this
      ensures Valid(disk) && cache == old(cache) - {path}
    {
      var left := cache - {path};
      assert left.Keys == cache.Keys - {path};
      assert |left.Keys| <= |cache.Keys|;
      cache := left;
    }

    /** cache.Add of a new key: over capacity, some other key goes. */
    method Add(path: string, zip: ProcessedZip)
      requires path !in cache && |cache| <= CAPACITY
      modifies this
      ensures path in cache && cache[path] == zip && |cache| <= CAPACITY
      ensures forall p :: p in cache && p != path ==> p in old(cache) && cache[p] == old(cache)[p]
    {
      var grown := cache[path := zip];
      assert grown.Keys == cache.Keys + {path};
      if |grown| > CAPACITY {
        assert cache.Keys != {};
        var victim :| victim in cache;
        var left := grown - {victim};
        assert left.Keys == grown.Keys - {victim};
        assert |left.Keys| == |left| && |grown.Keys| == |grown| && |cache.Keys| == |cache|;
        cache := left;
      } else {
        cache := grown;
      }
    }

    /** The part under the cache lock: the cached object, or a new one in its place. */
    method FindOrAdd(path: string, stripPrefix: string, inoStart: nat, ghost disk: Disk) returns (zip: ProcessedZip)
      requires Valid(disk) && inoStart < TWO_64
      modifies this
      ensures Valid(disk) && path in cache && cache[path] == zip
      ensures path in old(cache) ==> cache == old(cache)
      ensures path !in old(cache) ==>
                fresh(zip) && zip.args == ZipArgs(path, stripPrefix, inoStart) && zip.chMap == map[] && !zip.processed
      ensures forall p :: p in cache && p != path ==> p in old(cache) && cache[p] == old(cache)[p]
    {
      if path in cache {
        return cache[path];
      }
      zip := new ProcessedZip(ZipArgs(path, stripPrefix, inoStart));
      Add(path, zip);
    }

    /**
     A successful call returns a complete index: the fresh index of the archive under the
     arguments of the call that created the cached object, which are this call's on a miss.
     A failed call leaves an empty, retryable object behind.
     */
    method GetZip(path: string, stripPrefix: string, inoStart: nat, archive: Option<seq<Entry>>, ghost disk: Disk)
      returns (zip: ProcessedZip, ok: bool)
      requires Valid(disk) && inoStart < TWO_64 && OpenResult(disk, path, archive)
      requires archive.Some? ==>
                 NoFatalEntry(archive.value, if path in cache then cache[path].args.stripPrefix else stripPrefix)
      modifies this, cache.Values
      ensures Valid(disk)
      ensures path in cache && cache[path] == zip
      ensures path in old(cache) ==> zip == old(cache)[path]
      ensures path !in old(cache) ==> fresh(zip) && zip.args == ZipArgs(path, stripPrefix, inoStart)
      ensures ok <==> (path in old(cache) && old(cache[path].processed)) || archive.Some?
      ensures ok ==> zip.processed && path in disk && zip.chMap == IndexOf(disk[path], zip.args)
      ensures !ok ==> !zip.processed && zip.chMap == map[]
      ensures forall p :: p in cache && p != path ==>
          p in old(cache) && cache[p] == old(cache)[p] && unchanged(cache[p])
    {
      zip := FindOrAdd(path, stripPrefix, inoStart, disk);
      ghost var others := cache.Values - {zip};
      assert forall n :: n in others ==> n.Valid(disk) && n != zip;
      ok := zip.ProcessZip(archive, disk);
      forall p | p in cache && p != path ensures cache[p].Valid(disk) && unchanged(cache[p]) {
        assert cache[p] in others;
      }
    }
  }
}
