/** The read cache of src/graph_cache.rs: handles to opened graphs, checked by fingerprint on every
    lookup, evicted by age, and released before anything writes. */
module GraphCache {
  import opened Prelude

  type Path = string

  /** An on-disk generation of a graph: every write makes a new one. */
  type Generation = nat

  /** An opened store: which graph it is open on, and the generation it sees. */
  datatype Handle = Handle(id: nat, graph: Path, generation: Generation)

  datatype Fingerprint = Fingerprint(newestMtimeNanos: nat, totalSizeBytes: nat)

  const NO_FINGERPRINT := Fingerprint(0, 0)
  const MAX_CACHED_GRAPHS := 8

  datatype CacheEntry = CacheEntry(store: Handle, fingerprint: Fingerprint, openedSeq: nat)

  type Entries = map<Path, CacheEntry>

  datatype Cache = Cache(entries: Entries, nextSeq: nat)

  datatype Refusal = Busy | HandleInUse

  // ----- Eviction -----

  predicate IsOldest(entries: Entries, key: Path) {
    key in entries && forall k :: k in entries ==> entries[key].openedSeq <= entries[k].openedSeq
  }

  /** Open sequence numbers are handed out once. */
  predicate WellSequenced(c: Cache) {
    && (forall k :: k in c.entries ==> c.entries[k].openedSeq < c.nextSeq)
    && forall j, k :: j in c.entries && k in c.entries && c.entries[j].openedSeq == c.entries[k].openedSeq ==> j == k
  }

  lemma {:induction false} OldestExists(entries: Entries)
    requires entries != map[]
    ensures exists key :: IsOldest(entries, key)
    decreases |entries|
  {
    var key :| key in entries;
    var rest := entries - {key};
    assert forall k :: k in entries && k != key ==> k in rest;
    OneFewer(entries, key);
    if rest == map[] {
      assert IsOldest(entries, key);
    } else {
      OldestExists(rest);
      var oldest :| IsOldest(rest, oldest);
      assert IsOldest(entries, if entries[key].openedSeq <= entries[oldest].openedSeq then key else oldest);
    }
  }

  ghost function Oldest(entries: Entries): (key: Path)
    requires entries != map[]
    ensures IsOldest(entries, key)
  {
    OldestExists(entries);
    var key :| IsOldest(entries, key);
    key
  }

  lemma OneFewer(entries: Entries, key: Path)
    requires key in entries
    ensures |entries - {key}| == |entries| - 1
  {
    assert (entries - {key}).Keys == entries.Keys - {key};
  }

  ghost function Evicted(entries: Entries): Entries
    decreases |entries|
  {
    if |entries| <= MAX_CACHED_GRAPHS then entries
    else
      OneFewer(entries, Oldest(entries));
      Evicted(entries - {Oldest(entries)})
  }

  /** `kept` is a part of `all`, and whatever is missing was opened before everything kept. */
  predicate KeepsNewest(all: Entries, kept: Entries) {
    && kept.Keys <= all.Keys
    && (forall k :: k in kept ==> kept[k] == all[k])
    && forall j, k :: j in all && j !in kept && k in kept ==> all[j].openedSeq < kept[k].openedSeq
  }

  lemma KeepsNewestStep(c: Cache, victim: Path, kept: Entries)
    requires WellSequenced(c) && IsOldest(c.entries, victim) && KeepsNewest(c.entries - {victim}, kept)
    ensures KeepsNewest(c.entries, kept)
  {
    var rest := c.entries - {victim};
    forall j, k | j in c.entries && j !in kept && k in kept
      ensures c.entries[j].openedSeq < kept[k].openedSeq
    {
      assert k in rest && kept[k] == c.entries[k];
      if j != victim {
        assert j in rest;
      }
    }
  }

  /** Eviction keeps the newest entries, as many as fit. */
  lemma {:induction false} EvictionKeepsNewest(c: Cache)
    requires WellSequenced(c)
    ensures KeepsNewest(c.entries, Evicted(c.entries))
    ensures |Evicted(c.entries)| == (if |c.entries| <= MAX_CACHED_GRAPHS then |c.entries| else MAX_CACHED_GRAPHS)
    decreases |c.entries|
  {
    hide KeepsNewest;
    if |c.entries| > MAX_CACHED_GRAPHS {
      var victim := Oldest(c.entries);
      OneFewer(c.entries, victim);
      var rest := c.(entries := c.entries - {victim});
      EvictionKeepsNewest(rest);
      KeepsNewestStep(c, victim, Evicted(rest.entries));
    } else {
      KeepsAll(c.entries);
    }
  }

  lemma KeepsAll(entries: Entries)
    ensures KeepsNewest(entries, entries)
  {
  }

  // ----- Lookup -----

  /** The cached handle is current: the path has a fingerprint and it is the recorded one. */
  predicate IsHit(c: Cache, key: Path, current: Option<Fingerprint>) {
    current.Some? && key in c.entries && c.entries[key].fingerprint == current.value
  }

  function Inserted(c: Cache, key: Path, store: Handle, after: Option<Fingerprint>): Cache {
    var fingerprint := if after.Some? then after.value else NO_FINGERPRINT;
    Cache(c.entries[key := CacheEntry(store, fingerprint, c.nextSeq)], c.nextSeq + 1)
  }

  /** The cache after a lookup, and the handle it returns. `current` and `after` are the fingerprints
      read before and after the open, `attempt` is what the opener would answer. */
  ghost function Lookup(c: Cache, key: Path, current: Option<Fingerprint>,
                        attempt: Result<Handle, string>, after: Option<Fingerprint>)
    : (Cache, Result<Handle, string>)
  {
    if IsHit(c, key, current) then (c, Ok(c.entries[key].store))
    else
      match attempt
      case Err(e) => (c, Err(e))
      case Ok(store) =>
        var grown := Inserted(c, key, store, after);
        (grown.(entries := Evicted(grown.entries)), Ok(store))
  }

  lemma InsertedIsNewest(c: Cache, key: Path, store: Handle, after: Option<Fingerprint>)
    requires WellSequenced(c)
    ensures var grown := Inserted(c, key, store, after);
            && WellSequenced(grown) && grown.nextSeq == c.nextSeq + 1 && grown.entries.Keys == c.entries.Keys + {key}
            && 0 < |grown.entries| == |c.entries| + (if key in c.entries then 0 else 1)
            && forall k :: k in grown.entries ==> grown.entries[k].openedSeq <= grown.entries[key].openedSeq
  {
    var grown := Inserted(c, key, store, after);
    assert key in grown.entries.Keys && grown.entries.Keys == c.entries.Keys + {key};
    if key in c.entries {
      assert grown.entries.Keys == c.entries.Keys;
    }
  }

  /** Inserting and evicting keeps the new entry, at most eight in all, and of the others the newest. */
  lemma InsertEvicts(c: Cache, key: Path, store: Handle, after: Option<Fingerprint>)
    requires WellSequenced(c) && |c.entries| <= MAX_CACHED_GRAPHS
    ensures var grown := Inserted(c, key, store, after).entries;
            var kept := Evicted(grown);
            && |kept| <= MAX_CACHED_GRAPHS && KeepsNewest(grown, kept) && key in kept
            && (key in c.entries || |c.entries| < MAX_CACHED_GRAPHS ==> kept == grown)
  {
    assert MAX_CACHED_GRAPHS > 0;
    hide *;
    var grown := Inserted(c, key, store, after);
    InsertedIsNewest(c, key, store, after);
    EvictionKeepsNewest(grown);
    NewestIsKept(grown, Evicted(grown.entries), key);
    NothingToEvict(grown.entries);
  }

  /** Opening one more graph gives up the oldest entry exactly when the cache is full, and no other. */
  lemma InsertDropsOldest(c: Cache, key: Path, store: Handle, after: Option<Fingerprint>, k: Path)
    requires WellSequenced(c) && |c.entries| <= MAX_CACHED_GRAPHS && key !in c.entries && k in c.entries
    ensures k !in Evicted(Inserted(c, key, store, after).entries) <==>
            |c.entries| == MAX_CACHED_GRAPHS && IsOldest(c.entries, k)
  {
    var grown := Inserted(c, key, store, after).entries;
    InsertedIsNewest(c, key, store, after);
    NothingToEvict(grown);
    if |c.entries| == MAX_CACHED_GRAPHS {
      var victim := Oldest(grown);
      OneFewer(grown, victim);
      NothingToEvict(grown - {victim});
      OldestStays(c, grown, key, victim, k);
    }
  }

  lemma OldestStays(c: Cache, grown: Entries, key: Path, victim: Path, k: Path)
    requires WellSequenced(c) && key !in c.entries && k in c.entries && IsOldest(grown, victim)
    requires grown.Keys == c.entries.Keys + {key} && grown[key].openedSeq == c.nextSeq
    requires forall j :: j in c.entries ==> grown[j] == c.entries[j]
    ensures k == victim <==> IsOldest(c.entries, k)
  {
    assert k in grown.Keys && victim in grown.Keys;
    assert forall j :: j in c.entries ==> j in grown.Keys;
    assert grown[victim].openedSeq <= grown[k].openedSeq < c.nextSeq;
  }

  lemma NothingToEvict(entries: Entries)
    ensures |entries| <= MAX_CACHED_GRAPHS ==> Evicted(entries) == entries
  {
  }

  lemma NewestIsKept(c: Cache, kept: Entries, newest: Path)
    requires KeepsNewest(c.entries, kept) && |kept| > 0
    requires newest in c.entries && forall k :: k in c.entries ==> c.entries[k].openedSeq <= c.entries[newest].openedSeq
    ensures newest in kept
  {
    assert kept.Keys != {};
    var k :| k in kept;
    assert kept[k] == c.entries[k];
  }

  lemma PartIsSequenced(c: Cache, kept: Entries)
    requires WellSequenced(c) && KeepsNewest(c.entries, kept)
    ensures WellSequenced(c.(entries := kept))
  {
  }

  /** The entries a lookup chooses from: the new one is among them when it had to open. */
  function Candidates(c: Cache, key: Path, current: Option<Fingerprint>,
                      attempt: Result<Handle, string>, after: Option<Fingerprint>): Cache
  {
    if IsHit(c, key, current) || attempt.Err? then c else Inserted(c, key, attempt.value, after)
  }

  lemma CandidatesSequenced(c: Cache, key: Path, current: Option<Fingerprint>,
                            attempt: Result<Handle, string>, after: Option<Fingerprint>)
    requires WellSequenced(c)
    ensures WellSequenced(Candidates(c, key, current, attempt, after))
  {
  }

  /** A lookup leaves at most eight entries, gives up only entries opened before every entry it keeps,
      none while there is room, and never the entry it returns. */
  lemma LookupEvictsOldest(c: Cache, key: Path, current: Option<Fingerprint>,
                           attempt: Result<Handle, string>, after: Option<Fingerprint>)
    requires WellSequenced(c) && |c.entries| <= MAX_CACHED_GRAPHS
    ensures var all := Candidates(c, key, current, attempt, after).entries;
            var (next, r) := Lookup(c, key, current, attempt, after);
            && WellSequenced(next) && |next.entries| <= MAX_CACHED_GRAPHS
            && KeepsNewest(all, next.entries)
            && (r.Ok? ==> key in next.entries && next.entries[key].store == r.value)
            && (key in c.entries || |c.entries| < MAX_CACHED_GRAPHS ==> next.entries == all)
  {
    hide Evicted, KeepsNewest, WellSequenced;
    var all := Candidates(c, key, current, attempt, after);
    CandidatesSequenced(c, key, current, attempt, after);
    if !IsHit(c, key, current) && attempt.Ok? {
      InsertEvicts(c, key, attempt.value, after);
      PartIsSequenced(all, Evicted(all.entries));
      KeptEntry(all.entries, Evicted(all.entries), key);
    } else {
      KeepsAll(c.entries);
    }
  }

  lemma KeptEntry(all: Entries, kept: Entries, key: Path)
    requires KeepsNewest(all, kept) && key in kept
    ensures key in all && kept[key] == all[key]
  {
  }

  /** What is recorded beside a handle is the fingerprint of the generation the handle sees. */
  predicate Honest(c: Cache, fingerprintOf: (Path, Generation) -> Fingerprint) {
    forall k :: k in c.entries ==>
      c.entries[k].store.graph == k
      && c.entries[k].fingerprint == fingerprintOf(k, c.entries[k].store.generation)
  }

  /** Fingerprints tell the generations of a graph apart. */
  ghost predicate Distinguishes(fingerprintOf: (Path, Generation) -> Fingerprint) {
    forall g, m, n :: fingerprintOf(g, m) == fingerprintOf(g, n) ==> m == n
  }

  /** Reading through the cache is as good as opening afresh: whoever wrote the graph since, the handle
      returned sees the generation that is on disk now, and the cache stays honest. */
  lemma LookupIsFresh(c: Cache, key: Path, fingerprintOf: (Path, Generation) -> Fingerprint,
                      now: Generation, attempt: Result<Handle, string>)
    requires WellSequenced(c) && |c.entries| <= MAX_CACHED_GRAPHS
    requires Honest(c, fingerprintOf) && Distinguishes(fingerprintOf)
    requires attempt.Ok? ==> attempt.value.graph == key && attempt.value.generation == now
    ensures var seen := Some(fingerprintOf(key, now));
            var (next, r) := Lookup(c, key, seen, attempt, seen);
            && Honest(next, fingerprintOf)
            && (r.Ok? ==> r.value.graph == key && r.value.generation == now)
  {
    hide Evicted;
    var seen := Some(fingerprintOf(key, now));
    if !IsHit(c, key, seen) && attempt.Ok? {
      InsertEvicts(c, key, attempt.value, seen);
    }
  }

  /** A second lookup of an unchanged graph returns the same handle and opens nothing. */
  lemma LookupAgain(c: Cache, key: Path, seen: Fingerprint, first: Result<Handle, string>, second: Result<Handle, string>)
    requires WellSequenced(c) && |c.entries| <= MAX_CACHED_GRAPHS
    ensures var (next, r) := Lookup(c, key, Some(seen), first, Some(seen));
            r.Ok? ==> IsHit(next, key, Some(seen)) && Lookup(next, key, Some(seen), second, Some(seen)) == (next, r)
  {
    hide Evicted;
    if !IsHit(c, key, Some(seen)) && first.Ok? {
      InsertEvicts(c, key, first.value, Some(seen));
    }
  }

  // ----- Release -----

  /** The cache after the release hook ran for a graph, and its answer. */
  function Released(c: Cache, key: Path, borrowed: bool, strongCount: Handle -> nat): (Cache, Result<(), Refusal>) {
    if borrowed then (c, Err(Busy))
    else if key !in c.entries then (c, Ok(()))
    else if strongCount(c.entries[key].store) > 1 then (c, Err(HandleInUse))
    else (c.(entries := c.entries - {key}), Ok(()))
  }

  // ----- The cache as an object -----

  class GraphCache {
    var entries: map<Path, CacheEntry>
    var nextSeq: nat
    /** How many stores were opened. */
    var opens: nat

    function View(): Cache
      reads this
    {
      Cache(entries, nextSeq)
    }

    predicate Valid()
      reads this
    {
      WellSequenced(View()) && |entries| <= MAX_CACHED_GRAPHS
    }

    constructor ()
      ensures Valid() && View() == Cache(map[], 0) && opens == 0
    {
      entries, nextSeq, opens := map[], 0, 0;
    }

    method GetWithOpener(key: Path, current: Option<Fingerprint>, attempt: Result<Handle, string>,
                         after: Option<Fingerprint>)
      returns (r: Result<Handle, string>)
      requires Valid()
      modifies this
      ensures Valid()
      ensures (View(), r) == Lookup(old(View()), key, current, attempt, after)
      ensures opens == old(opens) + if IsHit(old(View()), key, current) || r.Err? then 0 else 1
    {
      hide Evicted, KeepsNewest, WellSequenced;
      CandidatesSequenced(View(), key, current, attempt, after);
      LookupEvictsOldest(View(), key, current, attempt, after);
      if current.Some? && key in entries {
        var entry := entries[key];
        if entry.fingerprint == current.value {
          return Ok(entry.store);
        }
      }
      if attempt.Err? {
        return Err(attempt.error);
      }
      var store := attempt.value;
      opens := opens + 1;
      var fingerprint := if after.Some? then after.value else NO_FINGERPRINT;
      var sequence := nextSeq;
      nextSeq := nextSeq + 1;
      entries := entries[key := CacheEntry(store, fingerprint, sequence)];
      EvictIfOverCapacity();
      r := Ok(store);
    }

    method EvictIfOverCapacity()
      requires WellSequenced(View())
      modifies this`entries
      ensures entries == Evicted(old(entries))
    {
      while |entries| > MAX_CACHED_GRAPHS
        invariant WellSequenced(View())
        invariant Evicted(entries) == Evicted(old(entries))
        decreases |entries|
      {
        var victim := MinByOpenedSeq(entries);
        assert victim == Oldest(entries);
        OneFewer(entries, victim);
        entries := entries - {victim};
      }
    }

    method Release(key: Path, borrowed: bool, strongCount: Handle -> nat) returns (r: Result<(), Refusal>)
      requires Valid()
      modifies this
      ensures Valid()
      ensures (View(), r) == Released(old(View()), key, borrowed, strongCount)
      ensures r == Err(Busy) <==> borrowed
      ensures r == Err(HandleInUse) <==> !borrowed && key in old(entries) && strongCount(old(entries)[key].store) >= 2
      ensures entries == if r.Ok? then old(entries) - {key} else old(entries)
      ensures opens == old(opens)
    {
      if borrowed {
        return Err(Busy);
      }
      if key in entries {
        if strongCount(entries[key].store) > 1 {
          return Err(HandleInUse);
        }
        OneFewer(entries, key);
        entries := entries - {key};
      }
      r := Ok(());
    }
  }

  /** The key with the smallest sequence number, found by visiting the entries in any order. */
  method MinByOpenedSeq(entries: Entries) returns (best: Path)
    requires entries != map[]
    ensures IsOldest(entries, best)
  {
    var todo := entries.Keys;
    assert entries.Keys != {};
    best :| best in todo;
    todo := todo - {best};
    while todo != {}
      invariant todo <= entries.Keys && best in entries.Keys - todo
      invariant forall k :: k in entries.Keys - todo ==> entries[best].openedSeq <= entries[k].openedSeq
      decreases |todo|
    {
      var k :| k in todo;
      todo := todo - {k};
      if entries[k].openedSeq < entries[best].openedSeq {
        best := k;
      }
    }
  }
}
