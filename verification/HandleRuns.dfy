/** Runs of the server from its start: requests that read one graph each lose nothing, and one that would hold
    a graph while it reads eight more loses a write. */
module HandleRuns {
  import opened GraphCache
  import opened HandleProtocol

  /** A server that has just started on what is stored. */
  function Start(disk: Disk, nextGeneration: Generation): World {
    World(disk, disk, Cache(map[], 0), multiset{}, 0, nextGeneration)
  }

  lemma StartIsGood(fs: FileSystem, disk: Disk, nextGeneration: Generation)
    requires forall g :: g in disk ==> disk[g] < nextGeneration && fs.resolve(g) == g
    ensures Good(fs, Start(disk, nextGeneration))
  {
  }

  // ----- Requests, one after the other -----

  /** What a request does, and the one graph it reads. */
  datatype Request = Request(graph: Path, actions: seq<Action>)

  /** Every read is of that graph, and of a path that exists. */
  ghost predicate ReadsOnly(fs: FileSystem, w: World, actions: seq<Action>, graph: Path)
    decreases |actions|
  {
    actions == []
    || (var a := actions[0];
        && Enabled(fs, w, a) && (a.Read? ==> Exists(fs, w, a.path) && fs.resolve(a.path) == graph)
        && ReadsOnly(fs, Step(fs, w, a), actions[1..], graph))
  }

  /** No handle is held between requests. */
  ghost predicate Serves(fs: FileSystem, w: World, requests: seq<Request>)
    decreases |requests|
  {
    && w.held == multiset{}
    && (requests == []
        || (ReadsOnly(fs, w, requests[0].actions, requests[0].graph)
            && Serves(fs, Final(fs, w, requests[0].actions), requests[1..])))
  }

  function Actions(requests: seq<Request>): seq<Action> {
    if requests == [] then [] else requests[0].actions + Actions(requests[1..])
  }

  predicate HoldsOnly(w: World, graph: Path) {
    forall h :: h in w.held ==> h.graph == graph
  }

  /** A read of an existing path is careful when no handle of another graph is held. */
  lemma OwnReadIsCareful(fs: FileSystem, w: World, a: Action, graph: Path)
    requires fs.Valid() && Good(fs, w) && HoldsOnly(w, graph)
    requires a.Read? ==> Exists(fs, w, a.path) && fs.resolve(a.path) == graph
    ensures !Careless(fs, w, a)
  {
    if Careless(fs, w, a) {
      var k :| k in w.cache.entries && w.cache.entries[k].store in w.held;
      assert graph in w.cache.entries;
      CachedIsHit(fs, w, a.path);
      assert false;
    }
  }

  lemma StepHoldsOnly(fs: FileSystem, w: World, a: Action, graph: Path)
    requires Good(fs, w) && HoldsOnly(w, graph)
    requires a.Read? ==> Exists(fs, w, a.path) && fs.resolve(a.path) == graph
    ensures HoldsOnly(Step(fs, w, a), graph)
  {
    if a.Read? && !Misses(fs, w, a.path) {
      assert CurrentEntry(fs, w, graph);
    }
  }

  /** A request that reads one graph is careful. */
  lemma {:induction false} RequestIsCareful(fs: FileSystem, w: World, actions: seq<Action>, graph: Path)
    requires fs.Valid() && Good(fs, w) && HoldsOnly(w, graph) && ReadsOnly(fs, w, actions, graph)
    ensures CarefulRun(fs, w, actions)
    decreases |actions|
  {
    hide Step, Good, Enabled, HoldsOnly, Careless, Exists;
    if actions != [] {
      var a := actions[0];
      OwnReadIsCareful(fs, w, a, graph);
      StepKeepsGood(fs, w, a);
      StepHoldsOnly(fs, w, a, graph);
      RequestIsCareful(fs, Step(fs, w, a), actions[1..], graph);
    }
  }

  lemma {:induction false} FinalOfConcat(fs: FileSystem, w: World, first: seq<Action>, second: seq<Action>)
    ensures Final(fs, w, first + second) == Final(fs, Final(fs, w, first), second)
    ensures CarefulRun(fs, w, first) && CarefulRun(fs, Final(fs, w, first), second) ==> CarefulRun(fs, w, first + second)
    decreases |first|
  {
    hide Step, Careless, Enabled;
    if first == [] {
      assert first + second == second;
    } else {
      assert (first + second)[1..] == first[1..] + second && (first + second)[0] == first[0];
      FinalOfConcat(fs, Step(fs, w, first[0]), first[1..], second);
    }
  }

  /** Requests that read one existing graph each, run one after the other, are careful. */
  lemma {:induction false} RequestsAreCareful(fs: FileSystem, w: World, requests: seq<Request>)
    requires fs.Valid() && Good(fs, w) && Serves(fs, w, requests)
    ensures CarefulRun(fs, w, Actions(requests))
    decreases |requests|
  {
    hide Good, Final, CarefulRun, ReadsOnly;
    if requests == [] {
      NothingIsCareful(fs, w);
    } else {
      var actions := requests[0].actions;
      RequestIsCareful(fs, w, actions, requests[0].graph);
      CarefulRunsLoseNothing(fs, w, actions);
      RequestsAreCareful(fs, Final(fs, w, actions), requests[1..]);
      FinalOfConcat(fs, w, actions, Actions(requests[1..]));
    }
  }

  lemma NothingIsCareful(fs: FileSystem, w: World)
    ensures CarefulRun(fs, w, [])
  {
  }

  /** From its start a server whose requests read one existing graph each loses nothing, however many graphs
      they read in all. */
  lemma RequestsLoseNothing(fs: FileSystem, disk: Disk, nextGeneration: Generation, requests: seq<Request>)
    requires fs.Valid() && forall g :: g in disk ==> disk[g] < nextGeneration && fs.resolve(g) == g
    requires Serves(fs, Start(disk, nextGeneration), requests)
    ensures var final := Final(fs, Start(disk, nextGeneration), Actions(requests));
            Good(fs, final) && !Lost(final)
  {
    var w := Start(disk, nextGeneration);
    StartIsGood(fs, disk, nextGeneration);
    RequestsAreCareful(fs, w, requests);
    CarefulRunsLoseNothing(fs, w, Actions(requests));
  }

  // ----- One request that reads nine graphs -----

  function Reads(graphs: seq<Path>): seq<Action> {
    seq(|graphs|, i requires 0 <= i < |graphs| => Read(graphs[i], true))
  }

  ghost predicate EnabledRun(fs: FileSystem, w: World, run: seq<Action>)
    decreases |run|
  {
    run == [] || (Enabled(fs, w, run[0]) && EnabledRun(fs, Step(fs, w, run[0]), run[1..]))
  }

  predicate Distinct(graphs: seq<Path>) {
    forall i, j :: 0 <= i < j < |graphs| ==> graphs[i] != graphs[j]
  }

  /** The handle that opening the graph first gives. */
  function FirstHandle(w: World, graph: Path): Handle
    requires graph in w.disk
  {
    Handle(w.nextId, graph, w.disk[graph])
  }

  /** The first graph's handle `h` is held once and is the oldest of the `n` that are cached. */
  ghost predicate Holding(fs: FileSystem, w: World, h: Handle, n: nat) {
    && Good(fs, w) && |w.cache.entries| == n && w.held[h] == 1 && h.id < w.nextId
    && IsOldest(w.cache.entries, h.graph) && w.cache.entries[h.graph].store == h
  }

  /** A read of a graph that is not cached while there is room. */
  lemma ReadWithRoom(fs: FileSystem, w: World, graph: Path)
    requires fs.Valid() && Good(fs, w) && graph in w.disk && graph !in w.cache.entries
    requires |w.cache.entries| < MAX_CACHED_GRAPHS
    ensures Misses(fs, w, graph) && !Careless(fs, w, Read(graph, true))
    ensures var next := Step(fs, w, Read(graph, true));
            && Good(fs, next) && next.disk == w.disk && next.nextId == w.nextId + 1
            && next.cache.entries == w.cache.entries[graph := next.cache.entries[graph]]
            && graph in next.cache.entries && next.cache.entries[graph].openedSeq == w.cache.nextSeq
            && next.cache.entries[graph].store == Opened(fs, w, graph)
            && next.held == w.held + multiset{Opened(fs, w, graph)}
            && |next.cache.entries| == |w.cache.entries| + 1
  {
    assert fs.resolve(graph) == graph;
    StepKeepsGood(fs, w, Read(graph, true));
    var key, h, after := Key(fs, w, graph), Opened(fs, w, graph), Fingerprinted(fs, w, graph);
    OpenedEntries(fs, w, graph);
    InsertedIsNewest(w.cache, key, h, after);
    NothingToEvict(Inserted(w.cache, key, h, after).entries);
    hide WellSequenced, Evicted;
  }

  lemma FirstRead(fs: FileSystem, w: World, graph: Path)
    requires fs.Valid() && Good(fs, w) && graph in w.disk && w.cache.entries == map[] && w.held == multiset{}
    ensures var next := Step(fs, w, Read(graph, true));
            Holding(fs, next, FirstHandle(w, graph), 1) && next.disk == w.disk && next.cache.entries.Keys == {graph}
  {
    assert fs.resolve(graph) == graph;
    ReadWithRoom(fs, w, graph);
    hide Good, Step;
  }

  lemma NextRead(fs: FileSystem, w: World, h: Handle, graph: Path)
    requires fs.Valid() && graph in w.disk && graph !in w.cache.entries
    requires Holding(fs, w, h, |w.cache.entries|) && |w.cache.entries| < MAX_CACHED_GRAPHS
    ensures var next := Step(fs, w, Read(graph, true));
            && Holding(fs, next, h, |w.cache.entries| + 1) && next.disk == w.disk
            && next.cache.entries.Keys == w.cache.entries.Keys + {graph}
  {
    assert fs.resolve(graph) == graph && WellSequenced(w.cache);
    ReadWithRoom(fs, w, graph);
    hide Good, Step;
    var next := Step(fs, w, Read(graph, true));
    assert h.graph in w.cache.entries && next.cache.entries[h.graph] == w.cache.entries[h.graph];
  }

  /** These graphs are stored, and not cached. */
  predicate Unread(w: World, graphs: seq<Path>) {
    forall g :: g in graphs ==> g in w.disk && g !in w.cache.entries
  }

  lemma UnreadRest(w: World, next: World, graphs: seq<Path>)
    requires graphs != [] && Distinct(graphs) && Unread(w, graphs)
    requires next.disk == w.disk && next.cache.entries.Keys == w.cache.entries.Keys + {graphs[0]}
    ensures graphs[0] in w.disk && graphs[0] !in w.cache.entries
    ensures Distinct(graphs[1..]) && Unread(next, graphs[1..])
  {
    assert graphs[0] in graphs;
    forall g | g in graphs[1..]
      ensures g in next.disk && g !in next.cache.entries
    {
      assert g in graphs && g !in w.cache.entries.Keys && g != graphs[0];
      assert g !in next.cache.entries.Keys;
    }
  }

  /** The graphs are read while there is room; the handle of the first one stays held. */
  lemma {:induction false} ReadsHold(fs: FileSystem, w: World, h: Handle, graphs: seq<Path>)
    requires fs.Valid() && Distinct(graphs) && Unread(w, graphs)
    requires Holding(fs, w, h, |w.cache.entries|) && |w.cache.entries| + |graphs| <= MAX_CACHED_GRAPHS
    ensures var next := Final(fs, w, Reads(graphs));
            && EnabledRun(fs, w, Reads(graphs)) && Holding(fs, next, h, |w.cache.entries| + |graphs|)
            && next.disk == w.disk
            && forall g :: g !in w.cache.entries.Keys && g !in graphs ==> g !in next.cache.entries.Keys
    decreases |graphs|
  {
    NoReads(fs, w);
    hide *;
    if graphs == [] {
      assert graphs == [];
    } else {
      var a, next := Read(graphs[0], true), Step(fs, w, Read(graphs[0], true));
      UnreadFirst(w, graphs);
      NextRead(fs, w, h, graphs[0]);
      UnreadRest(w, next, graphs);
      NextSize(fs, next, h, |w.cache.entries| + 1);
      ReadsHold(fs, next, h, graphs[1..]);
      ReadIsEnabled(fs, w, graphs);
      RunStep(fs, w, a, Reads(graphs[1..]));
      forall g | g !in w.cache.entries.Keys && g !in graphs
        ensures g !in Final(fs, w, Reads(graphs)).cache.entries.Keys
      {
        assert g != graphs[0] && g !in graphs[1..] && g !in next.cache.entries.Keys;
      }
    }
  }

  lemma NoReads(fs: FileSystem, w: World)
    ensures Reads([]) == [] && EnabledRun(fs, w, []) && Final(fs, w, []) == w
  {
  }

  lemma UnreadFirst(w: World, graphs: seq<Path>)
    requires graphs != [] && Unread(w, graphs)
    ensures graphs[0] in w.disk && graphs[0] !in w.cache.entries
  {
    assert graphs[0] in graphs;
  }

  lemma ReadIsEnabled(fs: FileSystem, w: World, graphs: seq<Path>)
    requires graphs != []
    ensures Enabled(fs, w, Read(graphs[0], true))
    ensures Reads(graphs) == [Read(graphs[0], true)] + Reads(graphs[1..])
  {
  }

  lemma NextSize(fs: FileSystem, w: World, h: Handle, n: nat)
    requires Holding(fs, w, h, n)
    ensures |w.cache.entries| == n
  {
  }

  /** One more read while the cache is full, a write of the first graph, and the drop of its handle. */
  lemma OneReadTooMany(fs: FileSystem, w: World, h: Handle, graph: Path)
    requires fs.Valid() && graph in w.disk && graph !in w.cache.entries && Holding(fs, w, h, MAX_CACHED_GRAPHS)
    ensures var run := [Read(graph, true), Write(h.graph), DropHandle(h)];
            EnabledRun(fs, w, run) && Lost(Final(fs, w, run))
  {
    var full := Step(fs, w, Read(graph, true));
    assert fs.resolve(graph) == graph && CurrentEntry(fs, w, h.graph);
    assert h in w.held && Misses(fs, w, graph) && EvictsHeld(w);
    OpenedEntries(fs, w, graph);
    assert h.graph !in CacheAfterOpen(fs, w, graph).entries by {
      InsertDropsOldest(w.cache, graph, Opened(fs, w, graph), Fingerprinted(fs, w, graph), h.graph);
    }
    EvictedIsForgotten(fs, w, graph, h.graph);
    assert Opened(fs, w, graph) != h;
    assert full.held[h] == 1 && full.cache == CacheAfterOpen(fs, w, graph) && full.disk == w.disk;
    hide *;
    LoseForgotten(fs, full, h);
    RunOfThree(fs, w, Read(graph, true), Write(h.graph), DropHandle(h));
  }

  lemma LoseForgotten(fs: FileSystem, w: World, h: Handle)
    requires w.held[h] == 1 && Cached(w.cache.entries, h) == {} && h.graph !in w.cache.entries
    requires fs.resolve(h.graph) == h.graph && h.graph in w.disk && h.generation < w.nextGeneration
    ensures var written := Step(fs, w, Write(h.graph));
            Enabled(fs, written, DropHandle(h)) && Lost(Step(fs, written, DropHandle(h)))
  {
    UncachedWrite(fs, w, h.graph);
    hide Step, Cached, Careless;
    DropOne(fs, Step(fs, w, Write(h.graph)), h);
  }

  lemma RunOfThree(fs: FileSystem, w: World, a: Action, b: Action, c: Action)
    requires a.Read? && b.Write? && Enabled(fs, Step(fs, Step(fs, w, a), b), c)
    ensures EnabledRun(fs, w, [a, b, c])
    ensures Final(fs, w, [a, b, c]) == Step(fs, Step(fs, Step(fs, w, a), b), c)
  {
    hide Step;
    var x, y := Step(fs, w, a), Step(fs, Step(fs, w, a), b);
    assert [a, b, c][1..] == [b, c] && [b, c][1..] == [c] && [c][1..] == [];
    assert EnabledRun(fs, y, [c]) && Final(fs, y, [c]) == Step(fs, y, c);
    assert EnabledRun(fs, x, [b, c]) && Final(fs, x, [b, c]) == Final(fs, y, [c]);
  }

  lemma {:induction false} EnabledConcat(fs: FileSystem, w: World, first: seq<Action>, second: seq<Action>)
    requires EnabledRun(fs, w, first) && EnabledRun(fs, Final(fs, w, first), second)
    ensures EnabledRun(fs, w, first + second)
    decreases |first|
  {
    hide Step, Enabled;
    if first == [] {
      assert first + second == second;
    } else {
      assert (first + second)[1..] == first[1..] + second;
      EnabledConcat(fs, Step(fs, w, first[0]), first[1..], second);
    }
  }

  /** Reads of nine graphs, a write of the first and the drop of its handle. */
  function NineReads(h: Handle, graphs: seq<Path>): seq<Action> {
    Reads(graphs) + [Write(h.graph), DropHandle(h)]
  }

  lemma EightCached(fs: FileSystem, w: World, h: Handle, most: seq<Path>, last: Path)
    requires fs.Valid() && Holding(fs, w, h, 1) && w.cache.entries.Keys == {h.graph}
    requires |most| == MAX_CACHED_GRAPHS - 1 && Distinct(most) && last in w.disk && last !in most && last != h.graph
    requires forall g :: g in most ==> g in w.disk && g != h.graph
    ensures var eight := Final(fs, w, Reads(most));
            && EnabledRun(fs, w, Reads(most)) && Holding(fs, eight, h, MAX_CACHED_GRAPHS)
            && last in eight.disk && last !in eight.cache.entries
  {
    MostUnread(w, h.graph, most);
    hide *;
    NextSize(fs, w, h, 1);
    ReadsHold(fs, w, h, most);
    assert last !in w.cache.entries.Keys;
    assert last !in Final(fs, w, Reads(most)).cache.entries.Keys;
  }

  lemma MostUnread(w: World, first: Path, most: seq<Path>)
    requires w.cache.entries.Keys == {first} && forall g :: g in most ==> g in w.disk && g != first
    ensures Unread(w, most)
  {
    forall g | g in most
      ensures g !in w.cache.entries
    {
      assert g !in w.cache.entries.Keys;
    }
  }

  /** The same, once the first graph is read. */
  lemma EightMoreLose(fs: FileSystem, w: World, h: Handle, most: seq<Path>, last: Path)
    requires fs.Valid() && Holding(fs, w, h, 1) && w.cache.entries.Keys == {h.graph}
    requires |most| == MAX_CACHED_GRAPHS - 1 && Distinct(most) && last in w.disk && last !in most && last != h.graph
    requires forall g :: g in most ==> g in w.disk && g != h.graph
    ensures var run := Reads(most) + [Read(last, true), Write(h.graph), DropHandle(h)];
            EnabledRun(fs, w, run) && Lost(Final(fs, w, run))
  {
    hide *;
    EightCached(fs, w, h, most, last);
    OneReadTooMany(fs, Final(fs, w, Reads(most)), h, last);
    var tail := [Read(last, true), Write(h.graph), DropHandle(h)];
    FinalOfConcat(fs, w, Reads(most), tail);
    EnabledConcat(fs, w, Reads(most), tail);
  }

  /** With nothing cached, whoever holds a graph while reading eight more loses the next write of it. */
  lemma NineReadsLose(fs: FileSystem, w: World, graphs: seq<Path>)
    requires fs.Valid() && Good(fs, w) && w.cache.entries == map[] && w.held == multiset{}
    requires |graphs| == MAX_CACHED_GRAPHS + 1 && Distinct(graphs) && forall g :: g in graphs ==> g in w.disk
    ensures graphs[0] in w.disk
    ensures var run := NineReads(FirstHandle(w, graphs[0]), graphs);
            EnabledRun(fs, w, run) && Lost(Final(fs, w, run))
  {
    var first := graphs[0];
    assert first in graphs;
    var h := FirstHandle(w, first);
    var most, last := graphs[1..MAX_CACHED_GRAPHS], graphs[MAX_CACHED_GRAPHS];
    SplitGraphs(graphs, h);
    assert h.graph == first && Enabled(fs, w, Read(first, true));
    hide *;
    FirstRead(fs, w, first);
    var one := Step(fs, w, Read(first, true));
    EightMoreLose(fs, one, h, most, last);
    RunStep(fs, w, Read(first, true), Reads(most) + [Read(last, true), Write(h.graph), DropHandle(h)]);
  }

  lemma SplitGraphs(graphs: seq<Path>, h: Handle)
    requires |graphs| == MAX_CACHED_GRAPHS + 1 && Distinct(graphs) && h.graph == graphs[0]
    ensures var most, last := graphs[1..MAX_CACHED_GRAPHS], graphs[MAX_CACHED_GRAPHS];
            && |most| == MAX_CACHED_GRAPHS - 1 && Distinct(most) && last !in most && last != graphs[0] && last in graphs
            && (forall g :: g in most ==> g in graphs && g != graphs[0])
            && NineReads(h, graphs) ==
               [Read(graphs[0], true)] + (Reads(most) + [Read(last, true), Write(h.graph), DropHandle(h)])
  {
  }

  lemma RunStep(fs: FileSystem, w: World, a: Action, rest: seq<Action>)
    requires Enabled(fs, w, a) && EnabledRun(fs, Step(fs, w, a), rest)
    ensures EnabledRun(fs, w, [a] + rest) && Final(fs, w, [a] + rest) == Final(fs, Step(fs, w, a), rest)
  {
    hide Step, Enabled;
    assert ([a] + rest)[1..] == rest;
  }

  // ----- The run, concretely -----

  const PLAIN := FileSystem(p => p, (_, n: Generation) => Fingerprint(n, 1))
  const NINE := ["a", "b", "c", "d", "e", "f", "g", "h", "i"]
  const STORED := map g | g in NINE :: 0

  lemma PlainIsValid()
    ensures PLAIN.Valid()
  {
  }

  /** Nine graphs read in a row by one holder, from the start of the server. */
  lemma NineGraphsLose()
    ensures var w, h := Start(STORED, 1), Handle(0, "a", 0);
            EnabledRun(PLAIN, w, NineReads(h, NINE)) && Lost(Final(PLAIN, w, NineReads(h, NINE)))
  {
    PlainIsValid();
    assert forall i :: 0 <= i < |NINE| ==> NINE[i][0] as int == 'a' as int + i;
    assert NINE[0] == "a";
    StartIsGood(PLAIN, STORED, 1);
    hide Good, EnabledRun, Final, NineReads;
    NineReadsLose(PLAIN, Start(STORED, 1), NINE);
  }
}
