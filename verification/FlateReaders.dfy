/**
 The pooled flate readers: the handle objects, and who owns a recycled reader when any number of
 goroutines open, read and close handles.

 A decompressed stream is a sequence of chunks determined by its source; reading chunk k of a
 source stands for one Read call. (The pool of writers works the same way.)
 */
module FlateReaders {
  import opened Wrappers

  /** Chunk number `at` of the decompressed source. */
  datatype Chunk = Chunk(source: nat, at: nat)

  // ----- The objects -----

  /** A flate reader: Reset points it at the start of a source. */
  class FlateReader {
    var source: nat
    var at: nat

    constructor (source: nat)
      ensures this.source == source && at == 0
    {
      this.source, at := source, 0;
    }

    method Reset(source: nat)
      modifies this
      ensures this.source == source && at == 0
    {
      this.source, at := source, 0;
    }

    method Read() returns (c: Chunk)
      modifies this
      ensures c == Chunk(source, old(at)) && source == old(source) && at == old(at) + 1
    {
      c := Chunk(source, at);
      at := at + 1;
    }
  }

  /** sync.Pool: Get may answer nil at any time, and items may be dropped at any time. */
  class ReaderPool {
    var items: set<FlateReader>

    constructor ()
      ensures items == {}
    {
      items := {};
    }

    method Get(answers: bool) returns (r: FlateReader?)
      modifies this
      ensures r != null ==> r in old(items) && items == old(items) - {r}
      ensures r == null ==> items == old(items)
      ensures answers && old(items) != {} ==> r != null
    {
      if answers && items != {} {
        r :| r in items;
        items := items - {r};
      } else {
        r := null;
      }
    }

    method Put(r: FlateReader)
      modifies this
      ensures items == old(items) + {r}
    {
      items := items + {r};
    }
  }

  class PooledFlateReader {
    var fr: FlateReader?

    constructor (fr: FlateReader)
      ensures this.fr == fr
    {
      this.fr := fr;
    }

    /** A closed handle errors and touches no reader; an open one delivers the next chunk of its reader. */
    method Read() returns (r: Option<Chunk>)
      modifies fr
      ensures fr == null ==> r.None?
      ensures fr != null ==>
          r == Some(Chunk(fr.source, old(fr.at))) && fr.source == old(fr.source) && fr.at == old(fr.at) + 1
    {
      if fr == null {
        return None;
      }
      var c := fr.Read();
      return Some(c);
    }

    /** The first Close hands the reader back; later ones do nothing. */
    method Close(pool: ReaderPool)
      modifies this, pool
      ensures fr == null
      ensures pool.items == if old(fr) != null then old(pool.items) + {old(fr)} else old(pool.items)
    {
      if fr != null {
        pool.Put(fr);
        fr := null;
      }
    }
  }

  /** newFlateReader: a recycled reader, if the pool gives one, is reset before it is wrapped. */
  method NewFlateReader(pool: ReaderPool, source: nat, answers: bool) returns (handle: PooledFlateReader)
    modifies pool, pool.items
    ensures fresh(handle) && handle.fr != null && handle.fr.source == source && handle.fr.at == 0
    ensures handle.fr !in pool.items && pool.items <= old(pool.items)
    ensures fresh(handle.fr) || handle.fr in old(pool.items)
  {
    var fr := pool.Get(answers);
    if fr != null {
      fr.Reset(source);
    } else {
      ghost var known := pool.items;
      fr := new FlateReader(source);
      assert fr !in known;
    }
    handle := new PooledFlateReader(fr);
  }

  // ----- All interleavings -----

  /**
   The life of one handle. Getting and Got are inside newFlateReader; Closing and Returned are
   inside Close, which holds the handle's mutex, before and after the reader went to the pool.
   `count` counts the chunks read through the handle.
   */
  datatype Handle =
    | Getting(source: nat)
    | Got(source: nat, reader: nat)
    | Open(source: nat, reader: nat, count: nat)
    | Closing(source: nat, reader: nat)
    | Returned(source: nat, reader: nat)
    | Shut(source: nat)

  /** readers[r] is what reader r delivers next. */
  datatype State = State(handles: seq<Handle>, pool: set<nat>, readers: seq<Chunk>)

  datatype Action =
    | Begin(source: nat)          // newFlateReader is called
    | Take(h: nat, reader: nat)   // the pool gives a reader
    | Make(h: nat)                // the pool gives none
    | Reset(h: nat)
    | Read(h: nat)
    | BeginClose(h: nat)
    | Put(h: nat)
    | EndClose(h: nat)
    | Drop(reader: nat)           // the pool forgets a reader

  predicate Enabled(s: State, act: Action) {
    match act
    case Begin(_) => true
    case Take(h, r) => h < |s.handles| && s.handles[h].Getting? && r in s.pool
    case Make(h) => h < |s.handles| && s.handles[h].Getting?
    case Reset(h) => h < |s.handles| && s.handles[h].Got? && s.handles[h].reader < |s.readers|
    case Read(h) =>
      && h < |s.handles| && (s.handles[h].Open? || s.handles[h].Shut?)
      && (s.handles[h].Open? ==> s.handles[h].reader < |s.readers|)
    case BeginClose(h) => h < |s.handles| && (s.handles[h].Open? || s.handles[h].Shut?)
    case Put(h) => h < |s.handles| && s.handles[h].Closing?
    case EndClose(h) => h < |s.handles| && s.handles[h].Returned?
    case Drop(r) => r in s.pool
  }

  /** What a Read answers: None is the error of a closed handle. */
  function Answer(s: State, h: nat): Option<Chunk>
    requires Enabled(s, Read(h))
  {
    match s.handles[h]
    case Open(_, r, _) => Some(s.readers[r])
    case _ => None
  }

  function Next(s: State, act: Action): State
    requires Enabled(s, act)
  {
    match act
    case Begin(source) => s.(handles := s.handles + [Getting(source)])
    case Take(h, r) => s.(handles := s.handles[h := Got(s.handles[h].source, r)], pool := s.pool - {r})
    case Make(h) =>
      var source := s.handles[h].source;
      s.(handles := s.handles[h := Open(source, |s.readers|, 0)], readers := s.readers + [Chunk(source, 0)])
    case Reset(h) =>
      var Got(source, r) := s.handles[h];
      s.(handles := s.handles[h := Open(source, r, 0)], readers := s.readers[r := Chunk(source, 0)])
    case Read(h) =>
      (match s.handles[h]
       case Open(source, r, count) =>
         s.(handles := s.handles[h := Open(source, r, count + 1)],
           readers := s.readers[r := s.readers[r].(at := s.readers[r].at + 1)])
       case _ => s)
    case BeginClose(h) =>
      (match s.handles[h]
       case Open(source, r, _) => s.(handles := s.handles[h := Closing(source, r)])
       case _ => s)
    case Put(h) =>
      var Closing(source, r) := s.handles[h];
      s.(handles := s.handles[h := Returned(source, r)], pool := s.pool + {r})
    case EndClose(h) => s.(handles := s.handles[h := Shut(s.handles[h].source)])
    case Drop(r) => s.(pool := s.pool - {r})
  }

  /** The handle owns its reader: nobody else may use it. */
  predicate Owns(handle: Handle) {
    handle.Got? || handle.Open? || handle.Closing?
  }

  ghost predicate Inv(s: State) {
    && (forall r :: r in s.pool ==> r < |s.readers|)
    && (forall h :: 0 <= h < |s.handles| && Owns(s.handles[h]) ==>
          s.handles[h].reader < |s.readers| && s.handles[h].reader !in s.pool)
    && (forall g, h :: 0 <= g < h < |s.handles| && Owns(s.handles[g]) && Owns(s.handles[h]) ==>
          s.handles[g].reader != s.handles[h].reader)
    && (forall h :: 0 <= h < |s.handles| && s.handles[h].Open? ==>
          s.readers[s.handles[h].reader] == Chunk(s.handles[h].source, s.handles[h].count))
  }

  lemma {:induction false} OpenCloseKeepsInv(s: State, act: Action)
    requires Inv(s) && Enabled(s, act) && (act.Begin? || act.BeginClose? || act.EndClose?)
    ensures Inv(Next(s, act))
  {
  }

  lemma {:induction false} HandOverKeepsInv(s: State, act: Action)
    requires Inv(s) && Enabled(s, act) && (act.Drop? || act.Put?)
    ensures Inv(Next(s, act))
  {
  }

  lemma {:induction false} AcquireKeepsInv(s: State, act: Action)
    requires Inv(s) && Enabled(s, act) && (act.Take? || act.Make?)
    ensures Inv(Next(s, act))
  {
  }

  lemma {:induction false} UseKeepsInv(s: State, act: Action)
    requires Inv(s) && Enabled(s, act) && (act.Reset? || act.Read?)
    ensures Inv(Next(s, act))
  {
  }

  lemma {:induction false} StepKeepsInv(s: State, act: Action)
    requires Inv(s) && Enabled(s, act)
    ensures Inv(Next(s, act))
  {
    hide Inv, Next, Enabled;
    match act {
      case Begin(_) => OpenCloseKeepsInv(s, act);
      case Drop(_) => HandOverKeepsInv(s, act);
      case BeginClose(_) => OpenCloseKeepsInv(s, act);
      case Put(_) => HandOverKeepsInv(s, act);
      case EndClose(_) => OpenCloseKeepsInv(s, act);
      case Take(_, _) => AcquireKeepsInv(s, act);
      case Make(_) => AcquireKeepsInv(s, act);
      case Reset(_) => UseKeepsInv(s, act);
      case Read(_) => UseKeepsInv(s, act);
    }
  }

  ghost predicate Run(s: State, acts: seq<Action>, s': State)
    decreases |acts|
  {
    if acts == [] then s' == s else Enabled(s, acts[0]) && Run(Next(s, acts[0]), acts[1..], s')
  }

  lemma {:induction false} RunKeepsInv(s: State, acts: seq<Action>, s': State)
    requires Inv(s) && Run(s, acts, s')
    ensures Inv(s')
    decreases |acts|
  {
    hide Inv, Next, Enabled;
    if acts != [] {
      StepKeepsInv(s, acts[0]);
      RunKeepsInv(Next(s, acts[0]), acts[1..], s');
    }
  }

  /**
   Reader ownership. Over all interleavings, with repeated closes and a pool that may drop items,
   no reader is owned by two handles or by a handle and the pool at once, and the n-th read through
   an open handle yields chunk n of that handle's own source.
   */
  lemma {:induction false} ReadersAreOwnedOnce(acts: seq<Action>, s: State)
    requires Run(State([], {}, []), acts, s)
    ensures forall g, h :: 0 <= g < h < |s.handles| && Owns(s.handles[g]) && Owns(s.handles[h]) ==>
              s.handles[g].reader != s.handles[h].reader
    ensures forall h :: 0 <= h < |s.handles| && Owns(s.handles[h]) ==> s.handles[h].reader !in s.pool
    ensures forall h: nat | h < |s.handles| && s.handles[h].Open? ::
              Enabled(s, Read(h)) && Answer(s, h) == Some(Chunk(s.handles[h].source, s.handles[h].count))
  {
    RunKeepsInv(State([], {}, []), acts, s);
  }

  lemma {:induction false} RunThree(s: State, a: Action, b: Action, c: Action)
    requires Enabled(s, a) && Enabled(Next(s, a), b) && Enabled(Next(Next(s, a), b), c)
    ensures Run(s, [a, b, c], Next(Next(Next(s, a), b), c))
  {
    hide Enabled, Next;
    var acts := [a, b, c];
    assert acts[1..] == [b, c] && [b, c][1..] == [c] && [c][1..] == [];
    assert Run(Next(Next(s, a), b), [c], Next(Next(Next(s, a), b), c));
    assert Run(Next(s, a), [b, c], Next(Next(Next(s, a), b), c));
  }

  /**
   A handle opened on a recycled reader starts at the beginning of its own source, and the pool has
   lost the reader.
   */
  lemma {:induction false} OpenRecycled(s: State, source: nat, r: nat) returns (s': State)
    requires Inv(s) && r in s.pool
    ensures Run(s, [Begin(source), Take(|s.handles|, r), Reset(|s.handles|)], s')
    ensures s'.handles == s.handles + [Open(source, r, 0)] && s'.pool == s.pool - {r}
    ensures s'.readers == s.readers[r := Chunk(source, 0)]
  {
    var h := |s.handles|;
    RunThree(s, Begin(source), Take(h, r), Reset(h));
    s' := Next(Next(Next(s, Begin(source)), Take(h, r)), Reset(h));
  }

  /** One opened when the pool gives nothing has a reader that nobody had before. */
  lemma {:induction false} OpenFresh(s: State, source: nat)
    ensures Enabled(Next(s, Begin(source)), Make(|s.handles|))
    ensures var s' := Next(Next(s, Begin(source)), Make(|s.handles|));
            && s'.handles == s.handles + [Open(source, |s.readers|, 0)] && s'.pool == s.pool
            && s'.readers == s.readers + [Chunk(source, 0)]
  {
  }

  /**
   Close hands the reader back exactly once: the handle is shut and the pool has the reader; closing it
   again does nothing.
   */
  lemma {:induction false} CloseHandsBack(s: State, h: nat) returns (s': State)
    requires h < |s.handles| && s.handles[h].Open?
    ensures Run(s, [BeginClose(h), Put(h), EndClose(h)], s')
    ensures s'.handles == s.handles[h := Shut(s.handles[h].source)] && s'.readers == s.readers
    ensures s'.pool == s.pool + {s.handles[h].reader}
    ensures Enabled(s', BeginClose(h)) && Next(s', BeginClose(h)) == s'
  {
    RunThree(s, BeginClose(h), Put(h), EndClose(h));
    s' := Next(Next(Next(s, BeginClose(h)), Put(h)), EndClose(h));
  }

  /** A closed handle stays closed, and reading it errors without touching any reader. */
  lemma {:induction false} ShutStaysShut(s: State, acts: seq<Action>, s': State, h: nat)
    requires Run(s, acts, s') && h < |s.handles| && s.handles[h].Shut?
    ensures h < |s'.handles| && s'.handles[h] == s.handles[h]
    ensures Answer(s', h) == None && Next(s', Read(h)) == s'
    decreases |acts|
  {
    if acts != [] {
      ShutStaysShut(Next(s, acts[0]), acts[1..], s', h);
    }
  }
}
