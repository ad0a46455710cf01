/** The life of cached handles in one server process: reads through the cache, requests that hold and
    drop handles, and writers that call the release hook first. Closing a handle writes the view it
    opened on, so a handle that outlives a write undoes it; the protocol is there to prevent that. */
module HandleProtocol {
  import opened Prelude
  import opened GraphCache

  type Disk = map<Path, Generation>

  /** What the operating system decides: where a spelling of a path leads, and what a stat walk sees. */
  datatype FileSystem = FileSystem(resolve: Path -> Path, fingerprintOf: (Path, Generation) -> Fingerprint) {
    ghost predicate Valid() {
      forall p :: resolve(resolve(p)) == resolve(p)
    }
  }

  /** `disk` is what is stored; `committed` is what it would be had no close undone a write. */
  datatype World = World(disk: Disk, committed: Disk, cache: Cache, held: multiset<Handle>,
                         nextId: nat, nextGeneration: Generation)

  datatype Action =
    | Read(path: Path, opens: bool)
    | DropHandle(handle: Handle)
    | Write(path: Path)
    | Remove(path: Path)
    | Quit

  predicate Exists(fs: FileSystem, w: World, path: Path) {
    fs.resolve(path) in w.disk
  }

  /** `canonicalize`, falling back to the spelling itself when there is nothing at the path. */
  function Key(fs: FileSystem, w: World, path: Path): Path {
    if Exists(fs, w, path) then fs.resolve(path) else path
  }

  function Cached(entries: Entries, h: Handle): set<Path> {
    set k | k in entries && entries[k].store == h
  }

  /** `Rc::strong_count`: one for the cache and one for every request that holds a clone. */
  function StrongCount(w: World, h: Handle): nat {
    w.held[h] + |Cached(w.cache.entries, h)|
  }

  // ----- Closing -----

  /** The handles whose last reference goes when the cache's entries change. */
  function Gone(held: multiset<Handle>, before: Entries, after: Entries): set<Handle> {
    set k | k in before && held[before[k].store] == 0 && Cached(after, before[k].store) == {} :: before[k].store
  }

  /** The disk after these handles closed: each writes back the generation it sees. */
  ghost function Closed(disk: Disk, gone: set<Handle>): Disk {
    map g | g in disk ::
      if exists h :: h in gone && h.graph == g then (var h :| h in gone && h.graph == g; h.generation) else disk[g]
  }

  // ----- Steps -----

  function Fingerprinted(fs: FileSystem, w: World, path: Path): Option<Fingerprint> {
    var graph := fs.resolve(path);
    if graph in w.disk then Some(fs.fingerprintOf(graph, w.disk[graph])) else None
  }

  /** Opening creates the graph when there is none. */
  function Created(fs: FileSystem, w: World, path: Path): World {
    if Exists(fs, w, path) then w
    else
      var graph := fs.resolve(path);
      w.(disk := w.disk[graph := w.nextGeneration], committed := w.committed[graph := w.nextGeneration])
  }

  function Opened(fs: FileSystem, w: World, path: Path): Handle {
    var graph := fs.resolve(path);
    Handle(w.nextId, graph, if graph in w.disk then w.disk[graph] else w.nextGeneration)
  }

  predicate Misses(fs: FileSystem, w: World, path: Path) {
    !IsHit(w.cache, Key(fs, w, path), Fingerprinted(fs, w, path))
  }

  /** The cache after a read that had to open. */
  ghost function CacheAfterOpen(fs: FileSystem, w: World, path: Path): Cache {
    Lookup(w.cache, Key(fs, w, path), Fingerprinted(fs, w, path), Ok(Opened(fs, w, path)),
           Fingerprinted(fs, Created(fs, w, path), path)).0
  }

  ghost function AfterRead(fs: FileSystem, w: World, path: Path, opens: bool): World {
    var key := Key(fs, w, path);
    if !Misses(fs, w, path) then w.(held := w.held + multiset{w.cache.entries[key].store})
    else if !opens then w
    else
      var created, cache := Created(fs, w, path), CacheAfterOpen(fs, w, path);
      World(Closed(created.disk, Gone(w.held, w.cache.entries, cache.entries)), created.committed, cache,
            w.held + multiset{Opened(fs, w, path)}, w.nextId + 1, w.nextGeneration + 1)
  }

  ghost function AfterDrop(w: World, h: Handle): World {
    var held := w.held - multiset{h};
    var last := held[h] == 0 && Cached(w.cache.entries, h) == {};
    w.(held := held, disk := if last then Closed(w.disk, {h}) else w.disk)
  }

  function ReleaseOf(fs: FileSystem, w: World, path: Path): (Cache, Result<(), Refusal>) {
    Released(w.cache, Key(fs, w, path), false, h => StrongCount(w, h))
  }

  /** The world once the release hook answered. */
  ghost function AfterRelease(fs: FileSystem, w: World, path: Path): World {
    var cache := ReleaseOf(fs, w, path).0;
    w.(cache := cache, disk := Closed(w.disk, Gone(w.held, w.cache.entries, cache.entries)))
  }

  ghost function AfterWrite(fs: FileSystem, w: World, path: Path): World {
    if ReleaseOf(fs, w, path).1.Err? then w
    else
      var released, graph := AfterRelease(fs, w, path), fs.resolve(path);
      released.(disk := released.disk[graph := w.nextGeneration],
                committed := released.committed[graph := w.nextGeneration],
                nextGeneration := w.nextGeneration + 1)
  }

  ghost function AfterRemove(fs: FileSystem, w: World, path: Path): World {
    if ReleaseOf(fs, w, path).1.Err? then w
    else
      var released, graph := AfterRelease(fs, w, path), fs.resolve(path);
      released.(disk := released.disk - {graph}, committed := released.committed - {graph})
  }

  function Live(w: World): set<Handle> {
    (set h | h in w.held) + (set k | k in w.cache.entries :: w.cache.entries[k].store)
  }

  /** The end of the process closes whatever is still open. */
  ghost function AfterQuit(w: World): World {
    w.(cache := w.cache.(entries := map[]), held := multiset{}, disk := Closed(w.disk, Live(w)))
  }

  ghost function Step(fs: FileSystem, w: World, a: Action): World {
    match a
    case Read(path, opens) => AfterRead(fs, w, path, opens)
    case DropHandle(h) => AfterDrop(w, h)
    case Write(path) => AfterWrite(fs, w, path)
    case Remove(path) => AfterRemove(fs, w, path)
    case Quit => AfterQuit(w)
  }

  predicate Enabled(fs: FileSystem, w: World, a: Action) {
    match a
    case DropHandle(h) => h in w.held
    case Remove(path) => Exists(fs, w, path)
    case _ => true
  }

  /** Some close has undone a write. */
  predicate Lost(w: World) {
    w.disk != w.committed
  }

  // ----- When a handle closes -----

  /** When the cache's entries change, the handles that close are those the cache gave up and no one holds. */
  lemma ClosesWithLastReference(held: multiset<Handle>, before: Entries, after: Entries, h: Handle)
    ensures h in Gone(held, before, after) <==>
              && (exists k :: k in before && before[k].store == h) && h !in held
              && forall k :: k in after ==> after[k].store != h
  {
    if h in Gone(held, before, after) {
      forall k | k in after
        ensures after[k].store != h
      {
        assert after[k].store == h ==> k in Cached(after, h);
      }
    }
    if (exists k :: k in before && before[k].store == h) && h !in held && forall k :: k in after ==> after[k].store != h {
      assert Cached(after, h) == {};
    }
  }

  /** A dropped handle closes exactly when that was the last reference to it. */
  lemma DropClosesLast(w: World, h: Handle)
    ensures var next := AfterDrop(w, h);
            next.disk == if StrongCount(next, h) == 0 then Closed(w.disk, {h}) else w.disk
  {
    var held := w.held - multiset{h};
    assert |Cached(w.cache.entries, h)| == 0 <==> Cached(w.cache.entries, h) == {};
    hide Closed, Cached;
  }

  /** Closing writes back the generation the handle sees, and touches no other graph. */
  lemma ClosingWritesBack(disk: Disk, h: Handle)
    ensures Closed(disk, {h}) == if h.graph in disk then disk[h.graph := h.generation] else disk
  {
    assert h in {h};
  }

  /** The release hook closes the handle it takes from the cache, and its view goes to disk. */
  lemma ReleaseCloses(fs: FileSystem, w: World, path: Path, h: Handle)
    requires ReleaseOf(fs, w, path).1.Ok? && Key(fs, w, path) in w.cache.entries
    requires w.cache.entries[Key(fs, w, path)].store == h && h !in w.held && Cached(w.cache.entries, h) == {Key(fs, w, path)}
    ensures AfterRelease(fs, w, path).disk == Closed(w.disk, {h})
  {
    var key, before := Key(fs, w, path), w.cache.entries;
    var after := ReleaseOf(fs, w, path).0.entries;
    assert after == before - {key};
    forall x
      ensures x in Gone(w.held, before, after) <==> x == h
    {
      ClosesWithLastReference(w.held, before, after, x);
      if x == h {
        forall k | k in after
          ensures after[k].store != h
        {
          assert after[k].store == h ==> k in Cached(before, h);
        }
      }
      if exists k :: k in before && before[k].store == x && k != key {
        var k :| k in before && before[k].store == x && k != key;
        assert k in after;
      }
    }
    assert Gone(w.held, before, after) == {h};
  }

  // ----- What goes wrong -----

  /** The cache is full, and a request holds the handle that was opened first: the next open evicts it. */
  predicate EvictsHeld(w: World) {
    && |w.cache.entries| == MAX_CACHED_GRAPHS
    && exists k :: k in w.cache.entries && IsOldest(w.cache.entries, k) && w.cache.entries[k].store in w.held
  }

  /** A held handle loses its entry when a read opens. */
  ghost predicate GivesUpHeld(fs: FileSystem, w: World, path: Path) {
    exists k :: k in w.cache.entries && w.cache.entries[k].store in w.held
                && k !in CacheAfterOpen(fs, w, path).entries
  }

  /** The read creates a graph under a spelling that is not the one the graph will have. */
  predicate MisfilesNewGraph(fs: FileSystem, w: World, path: Path) {
    !Exists(fs, w, path) && fs.resolve(path) != path
  }

  predicate Careless(fs: FileSystem, w: World, a: Action) {
    a.Read? && a.opens && Misses(fs, w, a.path) && (EvictsHeld(w) || MisfilesNewGraph(fs, w, a.path))
  }

  ghost function Final(fs: FileSystem, w: World, run: seq<Action>): World
    decreases |run|
  {
    if run == [] then w else Final(fs, Step(fs, w, run[0]), run[1..])
  }

  ghost predicate CarefulRun(fs: FileSystem, w: World, run: seq<Action>)
    decreases |run|
  {
    run == []
    || (Enabled(fs, w, run[0]) && !Careless(fs, w, run[0]) && CarefulRun(fs, Step(fs, w, run[0]), run[1..]))
  }

  // ----- The invariant -----

  /** An entry is filed under its graph, on the generation that is on disk. */
  predicate CurrentEntry(fs: FileSystem, w: World, k: Path)
    requires k in w.cache.entries
  {
    var e := w.cache.entries[k];
    && k in w.disk && e.store.graph == k && e.store.generation == w.disk[k] && e.store.id < w.nextId
    && e.fingerprint == fs.fingerprintOf(k, w.disk[k])
  }

  ghost predicate Good(fs: FileSystem, w: World) {
    && WellSequenced(w.cache) && |w.cache.entries| <= MAX_CACHED_GRAPHS
    && w.disk == w.committed
    && (forall g :: g in w.disk ==> w.disk[g] < w.nextGeneration && fs.resolve(g) == g)
    && (forall k :: k in w.cache.entries ==> CurrentEntry(fs, w, k))
    && (forall h :: h in w.held ==> h.graph in w.cache.entries && w.cache.entries[h.graph].store == h)
  }

  /** Closing handles that see what is on disk changes nothing. */
  lemma CloseCurrent(disk: Disk, gone: set<Handle>)
    requires forall h :: h in gone && h.graph in disk ==> h.generation == disk[h.graph]
    ensures Closed(disk, gone) == disk
  {
    assert forall g :: g in disk ==> Closed(disk, gone)[g] == disk[g];
  }

  lemma GoneIsCurrent(fs: FileSystem, w: World, after: Entries)
    requires Good(fs, w)
    ensures Closed(w.disk, Gone(w.held, w.cache.entries, after)) == w.disk
  {
    var gone := Gone(w.held, w.cache.entries, after);
    forall h | h in gone && h.graph in w.disk
      ensures h.generation == w.disk[h.graph]
    {
      var k :| k in w.cache.entries && w.cache.entries[k].store == h;
      assert CurrentEntry(fs, w, k);
    }
    CloseCurrent(w.disk, gone);
  }

  /** Under the invariant a cached handle has one reference from the cache. */
  lemma CachedOnce(fs: FileSystem, w: World, k: Path)
    requires Good(fs, w) && k in w.cache.entries
    ensures StrongCount(w, w.cache.entries[k].store) == w.held[w.cache.entries[k].store] + 1
  {
    var h := w.cache.entries[k].store;
    assert CurrentEntry(fs, w, k);
    forall j | j in Cached(w.cache.entries, h)
      ensures j == k
    {
      assert CurrentEntry(fs, w, j);
    }
    assert Cached(w.cache.entries, h) == {k};
  }

  /** An accepted release took the graph's entry, if there was one, whose handle nobody held. */
  lemma ReleasedEntries(fs: FileSystem, w: World, path: Path)
    requires Good(fs, w) && ReleaseOf(fs, w, path).1.Ok?
    ensures var key, next := Key(fs, w, path), ReleaseOf(fs, w, path).0;
            && next.entries == w.cache.entries - {key} && next.nextSeq == w.cache.nextSeq
            && (key in w.cache.entries ==> w.held[w.cache.entries[key].store] == 0)
  {
    var key := Key(fs, w, path);
    if key in w.cache.entries {
      CachedOnce(fs, w, key);
    } else {
      assert w.cache.entries - {key} == w.cache.entries;
    }
  }

  lemma FewerEntriesAreGood(fs: FileSystem, w: World, key: Path)
    requires Good(fs, w) && (key in w.cache.entries ==> w.held[w.cache.entries[key].store] == 0)
    ensures Good(fs, w.(cache := w.cache.(entries := w.cache.entries - {key})))
  {
    hide WellSequenced;
    var entries := w.cache.entries - {key};
    var after := w.(cache := w.cache.(entries := entries));
    WithoutIsSequenced(w.cache, key);
    forall k | k in entries
      ensures CurrentEntry(fs, after, k)
    {
      assert CurrentEntry(fs, w, k);
    }
    forall h | h in w.held
      ensures h.graph in entries && entries[h.graph].store == h
    {
      assert w.cache.entries[h.graph].store == h;
    }
  }

  lemma WithoutIsSequenced(c: Cache, key: Path)
    requires WellSequenced(c)
    ensures WellSequenced(c.(entries := c.entries - {key})) && |c.entries - {key}| <= |c.entries|
  {
    if key in c.entries {
      OneFewer(c.entries, key);
    } else {
      assert c.entries - {key} == c.entries;
    }
  }

  /** When the release hook answers Ok, no handle of that graph is live any more: none is held by a
      request and none is left in the cache. */
  lemma ReleaseLeavesNoHandle(fs: FileSystem, w: World, path: Path)
    requires Good(fs, w) && ReleaseOf(fs, w, path).1.Ok?
    ensures var graph := fs.resolve(path);
            && (forall h :: h in w.held ==> h.graph != graph)
            && (forall k :: k in ReleaseOf(fs, w, path).0.entries ==>
                             k != graph && ReleaseOf(fs, w, path).0.entries[k].store.graph != graph)
    ensures Good(fs, AfterRelease(fs, w, path)) && AfterRelease(fs, w, path).disk == w.disk
  {
    hide Released, WellSequenced;
    var key, left := Key(fs, w, path), ReleaseOf(fs, w, path).0.entries;
    ReleasedEntries(fs, w, path);
    GoneIsCurrent(fs, w, left);
    forall k | k in w.cache.entries
      ensures w.cache.entries[k].store.graph == k && k in w.disk && fs.resolve(k) == k
    {
      assert CurrentEntry(fs, w, k);
    }
    hide ReleaseOf, CurrentEntry;
    FewerEntriesAreGood(fs, w, key);
  }

  /** No request holds a handle of the graph. */
  predicate Unheld(w: World, graph: Path) {
    forall h :: h in w.held ==> h.graph != graph
  }

  /** The release hook answers Ok exactly when no request holds the graph, cached or not, and refuses it as in
      use otherwise. */
  lemma ReleaseIsExact(fs: FileSystem, w: World, path: Path)
    requires fs.Valid() && Good(fs, w)
    ensures ReleaseOf(fs, w, path).1 == if Unheld(w, fs.resolve(path)) then Ok(()) else Err(HandleInUse)
    ensures ReleaseOf(fs, w, path).1.Err? ==> AfterRelease(fs, w, path).cache == w.cache
  {
    hide WellSequenced;
    var key, graph := Key(fs, w, path), fs.resolve(path);
    if key in w.cache.entries {
      CachedOnce(fs, w, key);
      assert CurrentEntry(fs, w, key) && key == graph;
      assert w.cache.entries[key].store in w.held ==> !Unheld(w, graph);
    } else {
      forall h | h in w.held
        ensures h.graph != graph
      {
        assert CurrentEntry(fs, w, h.graph);
      }
    }
  }

  /** A write lands, and a removal removes, exactly when no request holds the graph. A refused one changes
      nothing at all. */
  lemma WritesLandExactly(fs: FileSystem, w: World, path: Path)
    requires fs.Valid() && Good(fs, w)
    ensures var graph := fs.resolve(path);
            if Unheld(w, graph) then
              && AfterWrite(fs, w, path).disk == w.disk[graph := w.nextGeneration]
              && AfterWrite(fs, w, path).committed == w.committed[graph := w.nextGeneration]
              && AfterRemove(fs, w, path).disk == w.disk - {graph}
              && AfterRemove(fs, w, path).committed == w.committed - {graph}
              && AfterWrite(fs, w, path).cache.entries == AfterRemove(fs, w, path).cache.entries == w.cache.entries - {graph}
            else AfterWrite(fs, w, path) == w && AfterRemove(fs, w, path) == w
  {
    var graph := fs.resolve(path);
    ReleaseIsExact(fs, w, path);
    hide *;
    if Unheld(w, graph) {
      ReleaseLeavesNoHandle(fs, w, path);
      ReleasedGraph(fs, w, path);
      AcceptedSteps(fs, w, path);
    } else {
      RefusedSteps(fs, w, path);
    }
  }

  lemma AcceptedSteps(fs: FileSystem, w: World, path: Path)
    requires ReleaseOf(fs, w, path).1.Ok?
    ensures var graph, released := fs.resolve(path), AfterRelease(fs, w, path);
            && AfterWrite(fs, w, path).disk == released.disk[graph := w.nextGeneration]
            && AfterWrite(fs, w, path).committed == w.committed[graph := w.nextGeneration]
            && AfterRemove(fs, w, path).disk == released.disk - {graph}
            && AfterRemove(fs, w, path).committed == w.committed - {graph}
            && AfterWrite(fs, w, path).cache == AfterRemove(fs, w, path).cache == ReleaseOf(fs, w, path).0
  {
    hide ReleaseOf, Closed, Gone;
  }

  lemma RefusedSteps(fs: FileSystem, w: World, path: Path)
    requires ReleaseOf(fs, w, path).1.Err?
    ensures AfterWrite(fs, w, path) == w && AfterRemove(fs, w, path) == w
  {
    hide ReleaseOf;
  }

  lemma ReleasedGraph(fs: FileSystem, w: World, path: Path)
    requires fs.Valid() && Good(fs, w) && ReleaseOf(fs, w, path).1.Ok?
    ensures ReleaseOf(fs, w, path).0.entries == w.cache.entries - {fs.resolve(path)}
  {
    forall k | k in w.cache.entries
      ensures k in w.disk && fs.resolve(k) == k
    {
      assert CurrentEntry(fs, w, k);
    }
    ReleasedEntries(fs, w, path);
    hide WellSequenced, ReleaseOf, CurrentEntry;
  }

  /** A write, accepted or refused, keeps the invariant; an accepted one is on disk. */
  lemma WriteKeepsGood(fs: FileSystem, w: World, path: Path)
    requires fs.Valid() && Good(fs, w)
    ensures Good(fs, AfterWrite(fs, w, path))
    ensures ReleaseOf(fs, w, path).1.Ok? ==> AfterWrite(fs, w, path).disk == w.disk[fs.resolve(path) := w.nextGeneration]
  {
    if ReleaseOf(fs, w, path).1.Ok? {
      ReleaseLeavesNoHandle(fs, w, path);
      var released, after := AfterRelease(fs, w, path), AfterWrite(fs, w, path);
      forall k | k in after.cache.entries
        ensures CurrentEntry(fs, after, k)
      {
        assert CurrentEntry(fs, released, k);
      }
    }
  }

  lemma RemoveKeepsGood(fs: FileSystem, w: World, path: Path)
    requires Good(fs, w)
    ensures Good(fs, AfterRemove(fs, w, path))
  {
    if ReleaseOf(fs, w, path).1.Ok? {
      ReleaseLeavesNoHandle(fs, w, path);
      var released, after := AfterRelease(fs, w, path), AfterRemove(fs, w, path);
      forall k | k in after.cache.entries
        ensures CurrentEntry(fs, after, k)
      {
        assert CurrentEntry(fs, released, k);
      }
    }
  }

  lemma DropKeepsGood(fs: FileSystem, w: World, h: Handle)
    requires Good(fs, w) && h in w.held
    ensures Good(fs, AfterDrop(w, h))
  {
    assert h.graph in Cached(w.cache.entries, h);
    var after := AfterDrop(w, h);
    forall k | k in after.cache.entries
      ensures CurrentEntry(fs, after, k)
    {
      assert CurrentEntry(fs, w, k);
    }
  }

  lemma QuitKeepsGood(fs: FileSystem, w: World)
    requires Good(fs, w)
    ensures Good(fs, AfterQuit(w))
  {
    forall h | h in Live(w)
      ensures h.graph in w.disk && h.generation == w.disk[h.graph]
    {
      var k :| k in w.cache.entries && w.cache.entries[k].store == h;
      assert CurrentEntry(fs, w, k);
    }
    CloseCurrent(w.disk, Live(w));
  }

  /** Under the invariant a cached graph is always a hit. */
  lemma CachedIsHit(fs: FileSystem, w: World, path: Path)
    requires fs.Valid() && Good(fs, w)
    ensures Key(fs, w, path) in w.cache.entries ==> !Misses(fs, w, path) && Key(fs, w, path) == fs.resolve(path)
  {
    if Key(fs, w, path) in w.cache.entries {
      assert CurrentEntry(fs, w, Key(fs, w, path));
    }
  }

  /** The world in which a read opens: the graph is there. */
  function Prepared(fs: FileSystem, w: World, path: Path): World {
    Created(fs, w, path).(nextId := w.nextId + 1, nextGeneration := w.nextGeneration + 1)
  }

  lemma PreparedIsGood(fs: FileSystem, w: World, path: Path)
    requires fs.Valid() && Good(fs, w)
    ensures Good(fs, Prepared(fs, w, path))
  {
    GrowingIsGood(fs, w, Prepared(fs, w, path));
  }

  /** Graphs may be added, as long as those there are keep their generation. */
  lemma GrowingIsGood(fs: FileSystem, w: World, next: World)
    requires Good(fs, w) && next.cache == w.cache && next.held == w.held && next.nextId >= w.nextId
    requires next.disk == next.committed
    requires forall g :: g in w.disk ==> g in next.disk && next.disk[g] == w.disk[g]
    requires forall g :: g in next.disk ==> next.disk[g] < next.nextGeneration && fs.resolve(g) == g
    ensures Good(fs, next)
  {
    hide WellSequenced;
    forall k | k in next.cache.entries
      ensures CurrentEntry(fs, next, k)
    {
      assert CurrentEntry(fs, w, k);
    }
  }

  /** The entries after an open: the new handle under its key, and some of the others unchanged. */
  lemma OpenedEntries(fs: FileSystem, w: World, path: Path)
    requires fs.Valid() && Good(fs, w) && Misses(fs, w, path)
    ensures var key, cache := Key(fs, w, path), CacheAfterOpen(fs, w, path);
            && key !in w.cache.entries && WellSequenced(cache) && |cache.entries| <= MAX_CACHED_GRAPHS
            && key in cache.entries && cache.entries[key].store == Opened(fs, w, path)
            && Some(cache.entries[key].fingerprint) == Fingerprinted(fs, Prepared(fs, w, path), path)
            && (forall k :: k in cache.entries && k != key ==>
                             k in w.cache.entries && cache.entries[k] == w.cache.entries[k])
            && AfterRead(fs, w, path, true).disk == Prepared(fs, w, path).disk
  {
    hide Evicted, WellSequenced;
    var key, h := Key(fs, w, path), Opened(fs, w, path);
    var before, after := Fingerprinted(fs, w, path), Fingerprinted(fs, Created(fs, w, path), path);
    CachedIsHit(fs, w, path);
    LookupEvictsOldest(w.cache, key, before, Ok(h), after);
    PreparedIsGood(fs, w, path);
    GoneIsCurrent(fs, Prepared(fs, w, path), CacheAfterOpen(fs, w, path).entries);
  }

  /** Whether an open gives up a held handle can be told before it: the cache is full and its oldest handle
      is held. */
  lemma EvictionIsForeseen(fs: FileSystem, w: World, path: Path)
    requires fs.Valid() && Good(fs, w) && Misses(fs, w, path)
    ensures GivesUpHeld(fs, w, path) <==> EvictsHeld(w)
  {
    var key, h, after := Key(fs, w, path), Opened(fs, w, path), Fingerprinted(fs, Created(fs, w, path), path);
    CachedIsHit(fs, w, path);
    assert CacheAfterOpen(fs, w, path).entries == Evicted(Inserted(w.cache, key, h, after).entries);
    hide CacheAfterOpen, Inserted, Evicted, WellSequenced, IsOldest;
    forall k | k in w.cache.entries
      ensures k !in CacheAfterOpen(fs, w, path).entries <==>
              |w.cache.entries| == MAX_CACHED_GRAPHS && IsOldest(w.cache.entries, k)
    {
      InsertDropsOldest(w.cache, key, h, after, k);
    }
  }

  /** A current handle filed under its graph, and every held handle kept, is a good world again. */
  lemma FiledIsGood(fs: FileSystem, w: World, next: World, key: Path, h: Handle)
    requires Good(fs, w)
    requires next == w.(cache := next.cache, held := w.held + multiset{h})
    requires WellSequenced(next.cache) && |next.cache.entries| <= MAX_CACHED_GRAPHS
    requires key in next.cache.entries && next.cache.entries[key].store == h && CurrentEntry(fs, next, key)
    requires forall k :: k in next.cache.entries && k != key ==>
               k in w.cache.entries && next.cache.entries[k] == w.cache.entries[k]
    requires forall k :: k in w.cache.entries && w.cache.entries[k].store in w.held ==>
               k in next.cache.entries && k != key
    ensures Good(fs, next)
  {
    hide WellSequenced;
    forall k | k in next.cache.entries
      ensures CurrentEntry(fs, next, k)
    {
      if k != key {
        assert CurrentEntry(fs, w, k);
      }
    }
    forall x | x in next.held
      ensures x.graph in next.cache.entries && next.cache.entries[x.graph].store == x
    {
      if x in w.held {
        assert w.cache.entries[x.graph].store in w.held;
      }
    }
  }

  /** A careful read that opens: the new handle is filed under its graph and no held handle is given up. */
  lemma OpenKeepsGood(fs: FileSystem, w: World, path: Path)
    requires fs.Valid() && Good(fs, w) && Misses(fs, w, path)
    requires !EvictsHeld(w) && !MisfilesNewGraph(fs, w, path)
    ensures Good(fs, AfterRead(fs, w, path, true))
  {
    EvictionIsForeseen(fs, w, path);
    OpenedEntries(fs, w, path);
    PreparedIsGood(fs, w, path);
    assert Key(fs, w, path) == fs.resolve(path);
    hide Evicted, WellSequenced, CacheAfterOpen, Good, EvictsHeld;
    FiledIsGood(fs, Prepared(fs, w, path), AfterRead(fs, w, path, true), Key(fs, w, path), Opened(fs, w, path));
  }

  /** Every careful step keeps the invariant. */
  lemma StepKeepsGood(fs: FileSystem, w: World, a: Action)
    requires fs.Valid() && Good(fs, w) && Enabled(fs, w, a) && !Careless(fs, w, a)
    ensures Good(fs, Step(fs, w, a))
  {
    match a
    case Read(path, opens) =>
      if Misses(fs, w, path) && opens {
        OpenKeepsGood(fs, w, path);
      } else if !Misses(fs, w, path) {
        HitKeepsGood(fs, w, path);
      }
    case DropHandle(h) => DropKeepsGood(fs, w, h);
    case Write(path) => WriteKeepsGood(fs, w, path);
    case Remove(path) => RemoveKeepsGood(fs, w, path);
    case Quit => QuitKeepsGood(fs, w);
  }

  lemma HitKeepsGood(fs: FileSystem, w: World, path: Path)
    requires Good(fs, w) && !Misses(fs, w, path)
    ensures Good(fs, AfterRead(fs, w, path, false)) && Good(fs, AfterRead(fs, w, path, true))
  {
    var after := AfterRead(fs, w, path, false);
    assert CurrentEntry(fs, w, Key(fs, w, path));
    forall k | k in after.cache.entries
      ensures CurrentEntry(fs, after, k)
    {
      assert CurrentEntry(fs, w, k);
    }
  }

  /** A held handle is as good as one opened now. */
  ghost predicate SeesDisk(w: World, h: Handle) {
    h.graph in w.disk && h.generation == w.disk[h.graph]
  }

  /** In every careful run, however long, no close ever undoes a write, and every handle in use sees
      what is on disk. */
  lemma {:induction false} CarefulRunsLoseNothing(fs: FileSystem, w: World, run: seq<Action>)
    requires fs.Valid() && Good(fs, w) && CarefulRun(fs, w, run)
    ensures Good(fs, Final(fs, w, run)) && !Lost(Final(fs, w, run))
    ensures forall h :: h in Final(fs, w, run).held ==> SeesDisk(Final(fs, w, run), h)
    decreases |run|
  {
    hide Careless, Enabled;
    HeldSeesDisk(fs, w);
    if run != [] {
      StepKeepsGood(fs, w, run[0]);
      hide Step;
      CarefulRunsLoseNothing(fs, Step(fs, w, run[0]), run[1..]);
    }
  }

  lemma HeldSeesDisk(fs: FileSystem, w: World)
    requires Good(fs, w)
    ensures forall h :: h in w.held ==> SeesDisk(w, h)
  {
    forall h | h in w.held
      ensures SeesDisk(w, h)
    {
      assert CurrentEntry(fs, w, h.graph);
    }
  }

  /** A first read opens at most once, and leaves the graph cached for the next. */
  lemma FirstReadOpensOnce(fs: FileSystem, w: World, path: Path)
    requires fs.Valid() && Good(fs, w) && !Careless(fs, w, Read(path, true))
    ensures var next := Step(fs, w, Read(path, true));
            && Good(fs, next) && Exists(fs, next, path) && Key(fs, next, path) in next.cache.entries
            && next.cache.entries[Key(fs, next, path)].store in next.held
            && next.nextId == w.nextId + if Misses(fs, w, path) then 1 else 0
  {
    StepKeepsGood(fs, w, Read(path, true));
    if Misses(fs, w, path) {
      OpenedEntries(fs, w, path);
    } else {
      assert CurrentEntry(fs, w, Key(fs, w, path));
    }
  }

  // ----- Why care is needed -----

  /** Some careful run from here ends with a write undone. */
  ghost predicate CanLose(fs: FileSystem, w: World) {
    exists run :: CarefulRun(fs, w, run) && Lost(Final(fs, w, run))
  }

  function Drops(h: Handle, n: nat): seq<Action> {
    if n == 0 then [] else [DropHandle(h)] + Drops(h, n - 1)
  }

  lemma DropOne(fs: FileSystem, w: World, h: Handle)
    requires h in w.held && Cached(w.cache.entries, h) == {} && h.graph in w.disk
    ensures Enabled(fs, w, DropHandle(h)) && !Careless(fs, w, DropHandle(h))
    ensures var next := Step(fs, w, DropHandle(h));
            && next.cache == w.cache && next.committed == w.committed && next.held[h] == w.held[h] - 1
            && h.graph in next.disk && (next.held[h] == 0 ==> next.disk[h.graph] == h.generation)
  {
    assert h in {h};
  }

  /** When a handle the cache does not know is dropped for good, its view is what is on disk. */
  lemma {:induction false} LastDropCloses(fs: FileSystem, w: World, h: Handle, n: nat)
    requires 0 < n == w.held[h] && Cached(w.cache.entries, h) == {} && h.graph in w.disk
    ensures CarefulRun(fs, w, Drops(h, n))
    ensures var final := Final(fs, w, Drops(h, n));
            && h.graph in final.disk && final.disk[h.graph] == h.generation && final.committed == w.committed
    decreases n
  {
    var next := Step(fs, w, DropHandle(h));
    assert Drops(h, n)[0] == DropHandle(h) && Drops(h, n)[1..] == Drops(h, n - 1);
    DropOne(fs, w, h);
    hide Step, Careless, Enabled, Cached;
    if n == 1 {
      assert Drops(h, 0) == [];
    } else {
      LastDropCloses(fs, next, h, n - 1);
    }
  }

  /** A write to a graph the cache has no entry for is never refused. */
  lemma UncachedWrite(fs: FileSystem, w: World, path: Path)
    requires fs.resolve(path) in w.disk && fs.resolve(path) !in w.cache.entries
    ensures !Careless(fs, w, Write(path)) && Enabled(fs, w, Write(path))
    ensures var graph, next := fs.resolve(path), Step(fs, w, Write(path));
            && next.cache == w.cache && next.held == w.held && next.nextGeneration == w.nextGeneration + 1
            && next.disk == w.disk[graph := w.nextGeneration]
            && next.committed == w.committed[graph := w.nextGeneration]
  {
    var entries := w.cache.entries;
    forall k | k in entries
      ensures k in Cached(entries, entries[k].store)
    {
    }
    assert Gone(w.held, entries, entries) == {};
    CloseCurrent(w.disk, {});
  }

  /** A handle that a request holds and the cache has forgotten can undo a write: the release hook
      finds nothing to refuse, and the handle closes after the write. */
  lemma ForgottenHandleLoses(fs: FileSystem, w: World, h: Handle)
    requires h in w.held && Cached(w.cache.entries, h) == {}
    requires fs.resolve(h.graph) == h.graph && h.graph in w.disk && h.graph !in w.cache.entries
    requires h.generation < w.nextGeneration
    ensures CanLose(fs, w)
  {
    UncachedWrite(fs, w, h.graph);
    var written := Step(fs, w, Write(h.graph));
    var drops := Drops(h, written.held[h]);
    LastDropCloses(fs, written, h, written.held[h]);
    var run := [Write(h.graph)] + drops;
    assert run[1..] == drops;
    assert CarefulRun(fs, w, run) && Final(fs, w, run) == Final(fs, written, drops);
    assert Final(fs, w, run).committed[h.graph] == w.nextGeneration;
  }

  lemma EvictedIsForgotten(fs: FileSystem, w: World, path: Path, k: Path)
    requires fs.Valid() && Good(fs, w) && Misses(fs, w, path)
    requires k in w.cache.entries && k !in CacheAfterOpen(fs, w, path).entries
    ensures var h := w.cache.entries[k].store;
            && Cached(CacheAfterOpen(fs, w, path).entries, h) == {}
            && h.graph == k && k in w.disk && fs.resolve(k) == k && h.generation < w.nextGeneration
  {
    OpenedEntries(fs, w, path);
    var cache, h := CacheAfterOpen(fs, w, path), w.cache.entries[k].store;
    assert CurrentEntry(fs, w, k);
    forall j | j in cache.entries
      ensures cache.entries[j].store != h
    {
      if j in w.cache.entries {
        assert CurrentEntry(fs, w, j);
      }
    }
  }

  lemma EvictedHandleLoses(fs: FileSystem, w: World, path: Path)
    requires fs.Valid() && Good(fs, w) && Misses(fs, w, path) && EvictsHeld(w)
    ensures CanLose(fs, AfterRead(fs, w, path, true))
  {
    EvictionIsForeseen(fs, w, path);
    hide CacheAfterOpen, Good, CanLose, Misses, Cached, Lookup;
    OpenedEntries(fs, w, path);
    var k :| k in w.cache.entries && w.cache.entries[k].store in w.held && k !in CacheAfterOpen(fs, w, path).entries;
    EvictedIsForgotten(fs, w, path, k);
    ForgottenHandleLoses(fs, AfterRead(fs, w, path, true), w.cache.entries[k].store);
  }

  /** The misfiled handle is the only live one of its graph, and closes last. */
  lemma QuitAfterMisfiling(w: World, h: Handle)
    requires h in Live(w) && forall x :: x in Live(w) && x != h ==> x.graph != h.graph
    requires h.graph in w.disk && h.graph in w.committed && w.committed[h.graph] != h.generation
    ensures Lost(AfterQuit(w))
  {
    assert AfterQuit(w).disk[h.graph] == h.generation;
  }

  /** A handle cached under a spelling that is not its graph survives the release of its graph. */
  lemma MisfiledHandleLoses(fs: FileSystem, w: World, path: Path, h: Handle)
    requires path in w.cache.entries && w.cache.entries[path].store == h && h in w.held
    requires h.graph == fs.resolve(path) && h.graph in w.disk && h.graph !in w.cache.entries
    requires forall x :: x in Live(w) && x != h ==> x.graph != h.graph
    requires h.generation < w.nextGeneration
    ensures CanLose(fs, w)
  {
    assert path in Cached(w.cache.entries, h);
    UncachedWrite(fs, w, path);
    var written := Step(fs, w, Write(path));
    assert Live(written) == Live(w);
    QuitAfterMisfiling(written, h);
    hide Live, AfterQuit, Cached, AfterWrite;
    var run := [Write(path), Quit];
    assert run[1..] == [Quit] && run[1..][1..] == [];
    assert CarefulRun(fs, written, [Quit]) && Final(fs, written, [Quit]) == AfterQuit(written);
    assert CarefulRun(fs, w, run) && Final(fs, w, run) == AfterQuit(written);
  }

  lemma LiveIsOnDisk(fs: FileSystem, w: World, x: Handle)
    requires Good(fs, w) && x in Live(w)
    ensures x.graph in w.disk
  {
    var k :| k in w.cache.entries && w.cache.entries[k].store == x;
    assert CurrentEntry(fs, w, k);
  }

  /** A graph created under another spelling is cached under a key no release will look for. */
  lemma MisfiledGraphLoses(fs: FileSystem, w: World, path: Path)
    requires fs.Valid() && Good(fs, w) && Misses(fs, w, path) && MisfilesNewGraph(fs, w, path)
    ensures CanLose(fs, AfterRead(fs, w, path, true))
  {
    hide CacheAfterOpen, Good, CanLose, Lookup, Misses;
    OpenedEntries(fs, w, path);
    var h, next := Opened(fs, w, path), AfterRead(fs, w, path, true);
    forall x | x in Live(next) && x != h
      ensures x.graph != h.graph
    {
      assert x in Live(w);
      LiveIsOnDisk(fs, w, x);
    }
    assert h.graph !in w.cache.entries by {
      if h.graph in w.cache.entries {
        CachedIsOnDisk(fs, w, h.graph);
      }
    }
    hide Live;
    MisfiledHandleLoses(fs, next, path, h);
  }

  lemma CachedIsOnDisk(fs: FileSystem, w: World, k: Path)
    requires Good(fs, w) && k in w.cache.entries
    ensures k in w.disk
  {
    assert CurrentEntry(fs, w, k);
  }

  /** From a good world, a step opens the way to an undone write exactly when it is careless: when it
      opens a graph while the cache is full and its oldest handle in use, or creates a graph under a spelling
      other than its own. */
  lemma CareIsExact(fs: FileSystem, w: World, a: Action)
    requires fs.Valid() && Good(fs, w) && Enabled(fs, w, a)
    ensures CanLose(fs, Step(fs, w, a)) <==> Careless(fs, w, a)
  {
    if Careless(fs, w, a) {
      if EvictsHeld(w) {
        EvictedHandleLoses(fs, w, a.path);
      } else {
        MisfiledGraphLoses(fs, w, a.path);
      }
    } else {
      StepKeepsGood(fs, w, a);
      var next := Step(fs, w, a);
      forall run | CarefulRun(fs, next, run)
        ensures !Lost(Final(fs, next, run))
      {
        CarefulRunsLoseNothing(fs, next, run);
      }
    }
  }

  /** The read tools look whether the graph is there before they read it; for them the eviction of a
      handle in use is the only way. */
  lemma EvictionIsTheOnlyWay(fs: FileSystem, w: World, path: Path, opens: bool)
    requires fs.Valid() && Good(fs, w) && Exists(fs, w, path)
    ensures CanLose(fs, Step(fs, w, Read(path, opens))) <==> opens && Misses(fs, w, path) && EvictsHeld(w)
  {
    hide CanLose, Step, Good, EvictsHeld, Misses;
    CareIsExact(fs, w, Read(path, opens));
  }
}
