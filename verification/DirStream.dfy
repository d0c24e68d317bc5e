/**
 MultiDirStream: several directory streams read one after the other, as HasNext and Next drive it.
 */
module DirStream {
  import opened FuseTypes

  /** A stream over a fixed list of entries, as fs.NewListDirStream makes it. */
  class ListDirStream {
    const entries: seq<DirEntry>
    var pos: nat

    constructor (entries: seq<DirEntry>)
      ensures this.entries == entries && pos == 0
    {
      this.entries, pos := entries, 0;
    }

    ghost predicate Valid()
      reads this
    {
      pos <= |entries|
    }

    /** What the stream has still to deliver. */
    ghost function Rest(): seq<DirEntry>
      requires Valid()
      reads this
    {
      entries[pos..]
    }

    method HasNext() returns (more: bool)
      requires Valid()
      ensures more <==> Rest() != []
    {
      more := pos < |entries|;
    }

    method Next() returns (e: DirEntry)
      requires Valid() && Rest() != []
      modifies this
      ensures Valid() && old(Rest()) == [e] + Rest()
    {
      e := entries[pos];
      pos := pos + 1;
    }
  }

  /** The entries the given streams deliver, one stream after the other. */
  ghost function Concat(streams: seq<ListDirStream>): seq<DirEntry>
    requires forall s :: s in streams ==> s.Valid()
    reads set s | s in streams
  {
    if streams == [] then [] else streams[0].Rest() + Concat(streams[1..])
  }

  lemma {:induction false} ConcatNone()
    ensures Concat([]) == []
  {
  }

  lemma {:induction false} ConcatNonEmpty(streams: seq<ListDirStream>)
    requires forall s :: s in streams ==> s.Valid() && s.Rest() != []
    ensures Concat(streams) != [] <==> streams != []
  {
    hide ListDirStream.Rest;
  }

  lemma {:induction false} ConcatSnoc(streams: seq<ListDirStream>, s: ListDirStream)
    requires s.Valid() && forall r :: r in streams ==> r.Valid()
    ensures Concat(streams + [s]) == Concat(streams) + s.Rest()
  {
    if streams == [] {
      assert (streams + [s])[1..] == [];
    } else {
      ConcatSnoc(streams[1..], s);
      assert (streams + [s])[1..] == streams[1..] + [s];
    }
  }

  class MultiDirStream {
    var streams: seq<ListDirStream>

    ghost predicate Valid()
      reads this, streams
    {
      && (forall s :: s in streams ==> s.Valid())
      && forall i, j :: 0 <= i < j < |streams| ==> streams[i] != streams[j]
    }

    ghost function Remaining(): seq<DirEntry>
      requires Valid()
      reads this, streams
    {
      Concat(streams)
    }

    constructor (streams: seq<ListDirStream>)
      requires forall s :: s in streams ==> s.Valid()
      requires forall i, j :: 0 <= i < j < |streams| ==> streams[i] != streams[j]
      ensures Valid() && this.streams == streams
    {
      this.streams := streams;
    }

    /**
     Drops the exhausted streams. What remains to be delivered does not change, so extra calls
     change nothing; afterwards the first stream, if any, has an entry.
     */
    method HasNext() returns (more: bool)
      requires Valid()
      modifies this
      ensures Valid() && Remaining() == old(Remaining())
      ensures more <==> Remaining() != []
      ensures forall s :: s in streams ==> s in old(streams) && s.Rest() != []
      ensures more ==> streams != []
    {
      hide Concat, ListDirStream.Rest;
      var newStreams: seq<ListDirStream> := [];
      var all := streams;
      ConcatNone();
      assert all[..0] == [];
      for i := 0 to |all|
        invariant streams == all && Valid()
        invariant forall j :: 0 <= j < |newStreams| ==> newStreams[j] in all[..i] && newStreams[j].Rest() != []
        invariant forall j, k :: 0 <= j < k < |newStreams| ==> newStreams[j] != newStreams[k]
        invariant Concat(newStreams) == Concat(all[..i])
      {
        var stream := all[i];
        assert all[..i + 1] == all[..i] + [stream];
        ConcatSnoc(all[..i], stream);
        var has := stream.HasNext();
        assert stream !in all[..i];
        if has {
          ConcatSnoc(newStreams, stream);
          newStreams := newStreams + [stream];
        }
      }
      assert all[..|all|] == all;
      ConcatNonEmpty(newStreams);
      streams := newStreams;
      more := |newStreams| > 0;
    }

    /** Delivers the next entry. The kernel calls Next only after HasNext answered true. */
    method Next() returns (e: DirEntry)
      requires Valid() && streams != [] && streams[0].Rest() != []
      modifies streams
      ensures Valid() && streams == old(streams)
      ensures old(Remaining()) == [e] + Remaining()
    {
      ghost var tail := streams[1..];
      assert Concat(streams) == streams[0].Rest() + Concat(tail);
      assert streams[0] !in tail;
      e := streams[0].Next();
    }

    /**
     The loop that reads the directory: it delivers exactly the concatenation of the streams, and
     the number of remaining entries measures its progress.
     */
    method Drain() returns (out: seq<DirEntry>)
      requires Valid()
      modifies this, streams
      ensures Valid() && Remaining() == []
      ensures out == old(Remaining())
    {
      hide Concat, ListDirStream.Rest, ListDirStream.Valid;
      ghost var all, whole := streams, Remaining();
      out := [];
      var more := HasNext();
      while more
        invariant Valid() && forall s :: s in streams ==> s in all
        invariant more <==> Remaining() != []
        invariant more ==> streams != [] && streams[0].Rest() != []
        invariant out + Remaining() == whole
        decreases |Remaining()|
      {
        ghost var rest := Remaining();
        assert forall i :: 0 <= i < |streams| ==> streams[i] in all;
        var e := Next();
        assert out + rest == out + [e] + Remaining();
        out := out + [e];
        more := HasNext();
      }
    }
  }
}
