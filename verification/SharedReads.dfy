/** Reads of one graph share one handle (src/graph_cache.rs:268-282): in any run, whatever else is read,
    dropped, written or removed, for as long as the cache keeps the graph's entry. */
module SharedReads {
  import opened GraphCache
  import opened HandleProtocol

  /** The handle a step returns, when it is a read of this graph. */
  ghost function Returned(fs: FileSystem, w: World, a: Action, graph: Path): seq<Handle> {
    if a.Read? && fs.resolve(a.path) == graph then
      if !Misses(fs, w, a.path) then [w.cache.entries[Key(fs, w, a.path)].store]
      else if a.opens then [Opened(fs, w, a.path)]
      else []
    else []
  }

  /** Whether a step opens this graph. */
  predicate Opens(fs: FileSystem, w: World, a: Action, graph: Path) {
    a.Read? && a.opens && fs.resolve(a.path) == graph && Misses(fs, w, a.path)
  }

  ghost function AllReturned(fs: FileSystem, w: World, run: seq<Action>, graph: Path): seq<Handle>
    decreases |run|
  {
    if run == [] then [] else Returned(fs, w, run[0], graph) + AllReturned(fs, Step(fs, w, run[0]), run[1..], graph)
  }

  ghost function OpenCount(fs: FileSystem, w: World, run: seq<Action>, graph: Path): nat
    decreases |run|
  {
    if run == [] then 0
    else (if Opens(fs, w, run[0], graph) then 1 else 0) + OpenCount(fs, Step(fs, w, run[0]), run[1..], graph)
  }

  /** The entry is there before and after every step: the graph is not evicted, written or removed. */
  ghost predicate KeptCached(fs: FileSystem, w: World, run: seq<Action>, graph: Path)
    decreases |run|
  {
    graph in w.cache.entries
    && (run == [] || (Enabled(fs, w, run[0]) && KeptCached(fs, Step(fs, w, run[0]), run[1..], graph)))
  }

  /** The graph's entry is current, and no live handle of the graph sees anything else. Unlike the
      invariant of the protocol this survives what careless reads do to other graphs. */
  predicate Settled(fs: FileSystem, w: World, graph: Path) {
    && graph in w.cache.entries && CurrentEntry(fs, w, graph) && fs.resolve(graph) == graph
    && forall h :: h in Live(w) && h.graph == graph ==> h.generation == w.disk[graph]
  }

  lemma GoodIsSettled(fs: FileSystem, w: World, graph: Path)
    requires Good(fs, w) && graph in w.cache.entries
    ensures Settled(fs, w, graph)
  {
    assert CurrentEntry(fs, w, graph);
    forall h | h in Live(w) && h.graph == graph
      ensures h.generation == w.disk[graph]
    {
      var k :| k in w.cache.entries && w.cache.entries[k].store == h;
      assert CurrentEntry(fs, w, k);
    }
  }

  lemma {:induction false} EvictedIsPart(entries: Entries)
    ensures forall k :: k in Evicted(entries) ==> k in entries && Evicted(entries)[k] == entries[k]
    decreases |entries|
  {
    if |entries| > MAX_CACHED_GRAPHS {
      OneFewer(entries, Oldest(entries));
      EvictedIsPart(entries - {Oldest(entries)});
    }
  }

  /** Closing leaves the graph alone when all that closes of it sees what is on disk. */
  lemma ClosedKeeps(disk: Disk, gone: set<Handle>, graph: Path)
    requires graph in disk && forall h :: h in gone && h.graph == graph ==> h.generation == disk[graph]
    ensures graph in Closed(disk, gone) && Closed(disk, gone)[graph] == disk[graph]
  {
  }

  lemma ReadIsHit(fs: FileSystem, w: World, path: Path, graph: Path)
    requires Settled(fs, w, graph) && fs.resolve(path) == graph
    ensures !Misses(fs, w, path) && Key(fs, w, path) == graph
  {
  }

  lemma GoneIsLive(w: World, after: Entries, h: Handle)
    requires h in Gone(w.held, w.cache.entries, after)
    ensures h in Live(w)
  {
  }

  /** A world with the same entry for the graph, no new handle of it and its generation unchanged. */
  lemma StaysSettled(fs: FileSystem, w: World, next: World, graph: Path)
    requires Settled(fs, w, graph) && graph in next.cache.entries && next.nextId >= w.nextId
    requires next.cache.entries[graph] == w.cache.entries[graph]
    requires graph in next.disk && next.disk[graph] == w.disk[graph]
    requires forall h :: h in Live(next) && h.graph == graph ==> h in Live(w)
    ensures Settled(fs, next, graph)
  {
    hide Live;
  }

  lemma OpenStaysSettled(fs: FileSystem, w: World, path: Path, graph: Path)
    requires Settled(fs, w, graph) && Misses(fs, w, path) && graph in AfterRead(fs, w, path, true).cache.entries
    ensures var next := AfterRead(fs, w, path, true);
            Settled(fs, next, graph) && next.cache.entries[graph] == w.cache.entries[graph]
  {
    if fs.resolve(path) == graph {
      ReadIsHit(fs, w, path, graph);
      assert false;
    }
    var key, created, cache := Key(fs, w, path), Created(fs, w, path), CacheAfterOpen(fs, w, path);
    var h, next := Opened(fs, w, path), AfterRead(fs, w, path, true);
    var after := Fingerprinted(fs, created, path);
    EvictedIsPart(Inserted(w.cache, key, h, after).entries);
    hide Evicted, CurrentEntry;
    var gone := Gone(w.held, w.cache.entries, cache.entries);
    forall x | x in gone && x.graph == graph
      ensures x.generation == created.disk[graph]
    {
      GoneIsLive(w, cache.entries, x);
    }
    ClosedKeeps(created.disk, gone, graph);
    StaysSettled(fs, w, next, graph);
  }

  lemma ReleaseStaysSettled(fs: FileSystem, w: World, path: Path, graph: Path)
    requires Settled(fs, w, graph) && graph in ReleaseOf(fs, w, path).0.entries
    ensures Settled(fs, AfterRelease(fs, w, path), graph)
    ensures AfterRelease(fs, w, path).cache.entries[graph] == w.cache.entries[graph]
    ensures ReleaseOf(fs, w, path).1.Ok? ==> fs.resolve(path) != graph
  {
    hide CurrentEntry;
    var after := AfterRelease(fs, w, path);
    var gone := Gone(w.held, w.cache.entries, after.cache.entries);
    assert graph in w.disk by {
      OnDisk(fs, w, graph);
    }
    forall x | x in gone && x.graph == graph
      ensures x.generation == w.disk[graph]
    {
      GoneIsLive(w, after.cache.entries, x);
    }
    ClosedKeeps(w.disk, gone, graph);
    StaysSettled(fs, w, after, graph);
  }

  lemma OnDisk(fs: FileSystem, w: World, graph: Path)
    requires Settled(fs, w, graph)
    ensures graph in w.disk
  {
  }

  lemma DropStaysSettled(fs: FileSystem, w: World, h: Handle, graph: Path)
    requires Settled(fs, w, graph) && h in w.held
    ensures Settled(fs, AfterDrop(w, h), graph)
  {
    OnDisk(fs, w, graph);
    assert h in Live(w);
    ClosedKeeps(w.disk, {h}, graph);
    hide CurrentEntry;
    StaysSettled(fs, w, AfterDrop(w, h), graph);
  }

  /** A step that keeps the entry keeps what it says, and a read of the graph returns its handle. */
  lemma StepStaysSettled(fs: FileSystem, w: World, a: Action, graph: Path)
    requires Settled(fs, w, graph) && Enabled(fs, w, a) && graph in Step(fs, w, a).cache.entries
    ensures Settled(fs, Step(fs, w, a), graph)
    ensures Step(fs, w, a).cache.entries[graph] == w.cache.entries[graph]
    ensures !Opens(fs, w, a, graph)
    ensures forall h :: h in Returned(fs, w, a, graph) ==> h == w.cache.entries[graph].store
    ensures a.Read? && fs.resolve(a.path) == graph ==> Returned(fs, w, a, graph) == [w.cache.entries[graph].store]
  {
    if a.Read? && fs.resolve(a.path) == graph {
      ReadIsHit(fs, w, a.path, graph);
    }
    match a
    case Read(path, opens) =>
      if Misses(fs, w, path) && opens {
        OpenStaysSettled(fs, w, path, graph);
      } else {
        hide CurrentEntry;
        StaysSettled(fs, w, Step(fs, w, a), graph);
      }
    case DropHandle(h) =>
      DropStaysSettled(fs, w, h, graph);
    case Write(path) =>
      WriteStaysSettled(fs, w, path, graph);
    case Remove(path) =>
      RemoveStaysSettled(fs, w, path, graph);
    case Quit =>
  }

  lemma WriteStaysSettled(fs: FileSystem, w: World, path: Path, graph: Path)
    requires Settled(fs, w, graph) && graph in AfterWrite(fs, w, path).cache.entries
    ensures Settled(fs, AfterWrite(fs, w, path), graph)
    ensures AfterWrite(fs, w, path).cache.entries[graph] == w.cache.entries[graph]
  {
    if ReleaseOf(fs, w, path).1.Ok? {
      ReleaseStaysSettled(fs, w, path, graph);
      hide CurrentEntry, ReleaseOf, AfterRelease;
      OnDisk(fs, AfterRelease(fs, w, path), graph);
      StaysSettled(fs, AfterRelease(fs, w, path), AfterWrite(fs, w, path), graph);
    }
  }

  lemma RemoveStaysSettled(fs: FileSystem, w: World, path: Path, graph: Path)
    requires Settled(fs, w, graph) && graph in AfterRemove(fs, w, path).cache.entries
    ensures Settled(fs, AfterRemove(fs, w, path), graph)
    ensures AfterRemove(fs, w, path).cache.entries[graph] == w.cache.entries[graph]
  {
    if ReleaseOf(fs, w, path).1.Ok? {
      ReleaseStaysSettled(fs, w, path, graph);
      hide CurrentEntry, ReleaseOf, AfterRelease;
      OnDisk(fs, AfterRelease(fs, w, path), graph);
      StaysSettled(fs, AfterRelease(fs, w, path), AfterRemove(fs, w, path), graph);
    }
  }

  lemma {:induction false} SettledRun(fs: FileSystem, w: World, run: seq<Action>, graph: Path)
    requires Settled(fs, w, graph) && KeptCached(fs, w, run, graph)
    ensures OpenCount(fs, w, run, graph) == 0
    ensures forall h :: h in AllReturned(fs, w, run, graph) ==> h == w.cache.entries[graph].store
    decreases |run|
  {
    hide Settled, Step, Returned, Opens;
    if run != [] {
      var next := Step(fs, w, run[0]);
      KeptStep(fs, w, run, graph);
      StepStaysSettled(fs, w, run[0], graph);
      SettledRun(fs, next, run[1..], graph);
    }
  }

  lemma KeptStep(fs: FileSystem, w: World, run: seq<Action>, graph: Path)
    requires run != [] && KeptCached(fs, w, run, graph)
    ensures Enabled(fs, w, run[0]) && KeptCached(fs, Step(fs, w, run[0]), run[1..], graph)
    ensures graph in Step(fs, w, run[0]).cache.entries
  {
    hide Step, Enabled;
  }

  /** In every run from a good world that keeps the graph's entry, all reads of the graph return the one
      handle and none opens it, whatever is read, dropped, written or removed in between. */
  lemma ReadsShareOneHandle(fs: FileSystem, w: World, run: seq<Action>, graph: Path)
    requires Good(fs, w) && KeptCached(fs, w, run, graph)
    ensures OpenCount(fs, w, run, graph) == 0
    ensures forall h :: h in AllReturned(fs, w, run, graph) ==> h == w.cache.entries[graph].store
  {
    hide Good, Settled;
    GoodIsSettled(fs, w, graph);
    SettledRun(fs, w, run, graph);
  }

  /** And with the read that brings the graph into the cache there is one open in total. */
  lemma OneOpenInTotal(fs: FileSystem, w: World, path: Path, rest: seq<Action>)
    requires fs.Valid() && Good(fs, w) && !Careless(fs, w, Read(path, true))
    requires KeptCached(fs, Step(fs, w, Read(path, true)), rest, fs.resolve(path))
    ensures var run, graph := [Read(path, true)] + rest, fs.resolve(path);
            && OpenCount(fs, w, run, graph) == (if Misses(fs, w, path) then 1 else 0)
            && AllReturned(fs, w, run, graph) != []
            && forall h :: h in AllReturned(fs, w, run, graph) ==> h == AllReturned(fs, w, run, graph)[0]
  {
    var run, graph, next := [Read(path, true)] + rest, fs.resolve(path), Step(fs, w, Read(path, true));
    assert run[0] == Read(path, true) && run[1..] == rest;
    FirstReturned(fs, w, path);
    StepKeepsGood(fs, w, Read(path, true));
    hide Good, Misses, Step;
    ReadsShareOneHandle(fs, next, rest, graph);
  }

  lemma FirstReturned(fs: FileSystem, w: World, path: Path)
    requires fs.Valid() && Good(fs, w) && !Careless(fs, w, Read(path, true))
    ensures var next, graph := Step(fs, w, Read(path, true)), fs.resolve(path);
            graph in next.cache.entries && Returned(fs, w, Read(path, true), graph) == [next.cache.entries[graph].store]
  {
    if Misses(fs, w, path) {
      OpenedEntries(fs, w, path);
    } else {
      assert CurrentEntry(fs, w, Key(fs, w, path));
    }
  }
}
