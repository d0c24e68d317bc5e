/** The values the file system hands to the kernel, and what it means that a directory is listed. */
module FuseTypes {
  datatype LinkType = HARD | SOFT

  datatype Mode = IFDIR | IFREG | IFLNK

  datatype DirEntry = DirEntry(mode: Mode, name: string, ino: nat)

  datatype StableAttr = StableAttr(mode: Mode, ino: nat, gen: nat)

  /** What a directory shows under each of its names. */
  type Listing = map<string, DirEntry>

  /** lst holds the entry of every one of the names once, in any order. */
  ghost predicate ListsNames(lst: seq<DirEntry>, dir: Listing, names: set<string>) {
    && (forall k :: 0 <= k < |lst| ==> lst[k].name in names * dir.Keys && lst[k] == dir[lst[k].name])
    && (forall n :: n in names ==> exists k :: 0 <= k < |lst| && lst[k].name == n)
    && (forall i, j :: 0 <= i < j < |lst| ==> lst[i].name != lst[j].name)
  }

  /** A listing of the whole directory. */
  ghost predicate ListsExactly(lst: seq<DirEntry>, dir: Listing) {
    ListsNames(lst, dir, dir.Keys)
  }

  lemma {:induction false} ListNone(dir: Listing)
    ensures ListsNames([], dir, {})
  {
  }

  lemma {:induction false} ListOneMore(lst: seq<DirEntry>, dir: Listing, names: set<string>, name: string)
    requires ListsNames(lst, dir, names) && name in dir && name !in names && dir[name].name == name
    ensures ListsNames(lst + [dir[name]], dir, names + {name})
  {
    var more := lst + [dir[name]];
    forall n | n in names + {name} ensures exists k :: 0 <= k < |more| && more[k].name == n {
      if n in names {
        var k :| 0 <= k < |lst| && lst[k].name == n;
        assert more[k].name == n;
      } else {
        assert more[|lst|].name == n;
      }
    }
  }
}
