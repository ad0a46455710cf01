/** The coupling edges that src/cochange.rs derives from the aggregates. Ratios are exact rationals. */
module CochangeEdges {
  import opened Prelude
  import opened MultisetSums
  import opened Cochange
  import opened CochangeCounts

  const MIN_COUPLING := 0.30

  datatype Edge = Edge(from: string, to: string, cochangeCount: int, support: int,
                       coupling: real, jaccard: real, lastCoChange: int)

  /** The edge of a pair that clears the thresholds, None for one that does not. */
  function EdgeOf(st: Aggregates, key: string): Option<Edge>
    requires key in st.pairs
  {
    var agg := st.pairs[key];
    if agg.count < MIN_COCHANGE || SplitKey(key) == None then None
    else
      var (a, b) := SplitKey(key).value;
      var ca, cb := FileAt(st.fileChanges, a), FileAt(st.fileChanges, b);
      var least := if ca < cb then ca else cb;
      if least <= 0 || agg.count as real / least as real < MIN_COUPLING then None
      else
        var union_ := ca + cb - agg.count;
        var jaccard := if union_ > 0 then agg.count as real / union_ as real else 0.0;
        Some(Edge(a, b, agg.count, least, agg.count as real / least as real, jaccard, agg.lastTs))
  }

  /** The edge of this pair is inserted: it clears the thresholds and joins two file nodes. */
  predicate Lands(st: Aggregates, nodes: set<string>, key: string) {
    key in st.pairs && EdgeOf(st, key).Some?
    && EdgeOf(st, key).value.from in nodes && EdgeOf(st, key).value.to in nodes
  }

  function EdgesFor(st: Aggregates, nodes: set<string>, keys: set<string>): set<Edge> {
    set key | key in keys && Lands(st, nodes, key) :: EdgeOf(st, key).value
  }

  function Landing(st: Aggregates, nodes: set<string>, keys: set<string>): set<string> {
    set key | key in keys && Lands(st, nodes, key)
  }

  lemma OneMoreKey(st: Aggregates, nodes: set<string>, keys: set<string>, key: string)
    requires key in st.pairs && key !in keys
    ensures EdgesFor(st, nodes, keys + {key}) ==
            EdgesFor(st, nodes, keys) + if Lands(st, nodes, key) then {EdgeOf(st, key).value} else {}
    ensures |Landing(st, nodes, keys + {key})| ==
            |Landing(st, nodes, keys)| + if Lands(st, nodes, key) then 1 else 0
  {
    hide EdgeOf, Lands;
    assert Landing(st, nodes, keys + {key}) ==
           Landing(st, nodes, keys) + if Lands(st, nodes, key) then {key} else {};
  }

  /** Drops all edges and inserts one per pair that clears the thresholds and joins two file nodes. */
  method RewriteEdges(st: Aggregates, nodes: set<string>) returns (edges: set<Edge>, written: nat)
    ensures edges == EdgesFor(st, nodes, st.pairs.Keys)
    ensures written == |Landing(st, nodes, st.pairs.Keys)|
  {
    hide SplitKey, EdgesFor, Landing;
    edges, written := {}, 0;
    var todo := st.pairs.Keys;
    NoKeys(st, nodes);
    assert st.pairs.Keys - todo == {};
    while todo != {}
      invariant todo <= st.pairs.Keys
      invariant edges == EdgesFor(st, nodes, st.pairs.Keys - todo)
      invariant written == |Landing(st, nodes, st.pairs.Keys - todo)|
      decreases |todo|
    {
      var key :| key in todo;
      OneMoreKey(st, nodes, st.pairs.Keys - todo, key);
      assert st.pairs.Keys - (todo - {key}) == st.pairs.Keys - todo + {key};
      todo := todo - {key};
      var agg := st.pairs[key];
      if agg.count < MIN_COCHANGE {
        continue;
      }
      var parts := SplitKey(key);
      if parts == None {
        continue;
      }
      var (a, b) := parts.value;
      var ca, cb := FileAt(st.fileChanges, a), FileAt(st.fileChanges, b);
      var least := if ca < cb then ca else cb;
      if least <= 0 {
        continue;
      }
      var coupling := agg.count as real / least as real;
      if coupling < MIN_COUPLING {
        continue;
      }
      var union_ := ca + cb - agg.count;
      var jaccard := if union_ > 0 then agg.count as real / union_ as real else 0.0;
      if a in nodes && b in nodes {
        edges := edges + {Edge(a, b, agg.count, least, coupling, jaccard, agg.lastTs)};
        written := written + 1;
      }
    }
    assert st.pairs.Keys - todo == st.pairs.Keys;
  }

  lemma NoKeys(st: Aggregates, nodes: set<string>)
    ensures EdgesFor(st, nodes, {}) == {} && Landing(st, nodes, {}) == {}
  {
  }

  lemma RatioBounds(count: int, least: int, union_: int)
    requires 0 < count <= least <= union_
    ensures 0.0 < count as real / union_ as real <= count as real / least as real <= 1.0
  {
  }

  /** A pair changed together no more often than either of its files changed. */
  lemma PairsAreSupported(commits: seq<Commit>, key: string)
    requires forall c :: c in commits ==> PlainCommit(c)
    requires key in Accumulated(NOTHING, commits).pairs
    ensures var mined := Accumulated(NOTHING, commits);
            exists a, b :: a != b && UNIT_SEPARATOR !in a && UNIT_SEPARATOR !in b && key == KeyOf(a, b)
                           && 0 < mined.pairs[key].count <= FileAt(mined.fileChanges, a)
                           && mined.pairs[key].count <= FileAt(mined.fileChanges, b)
  {
    hide Accumulated, KeyOf;
    AccumulatedCounts(NOTHING, commits, "", key);
    SummedKeysArePairs(commits, key);
    var a, b :| a != b && UNIT_SEPARATOR !in a && UNIT_SEPARATOR !in b && key == KeyOf(a, b);
    MinedCounts(commits, a, b);
    AccumulatedCounts(NOTHING, commits, b, key);
    FileCountIsCommits(commits, b);
    FewerCommits(commits, {a, b}, {a});
    FewerCommits(commits, {a, b}, {b});
  }

  /** An edge of a pair that changed together no more often than its files did. */
  lemma SupportedEdge(st: Aggregates, key: string, a: string, b: string)
    requires key in st.pairs && SplitKey(key) == Some((a, b))
    requires 0 < st.pairs[key].count <= FileAt(st.fileChanges, a) && st.pairs[key].count <= FileAt(st.fileChanges, b)
    ensures var ca, cb, count := FileAt(st.fileChanges, a), FileAt(st.fileChanges, b), st.pairs[key].count;
            var e := EdgeOf(st, key);
            && (e.Some? <==> count >= MIN_COCHANGE && (10 * count >= 3 * ca || 10 * count >= 3 * cb))
            && (e.Some? ==> e.value.from == a && e.value.to == b && e.value.cochangeCount == count
                            && 0 < e.value.support <= ca + cb - count
                            && 0.0 < e.value.jaccard <= e.value.coupling <= 1.0)
  {
    hide SplitKey;
    var ca, cb, count := FileAt(st.fileChanges, a), FileAt(st.fileChanges, b), st.pairs[key].count;
    var least := if ca < cb then ca else cb;
    RatioBounds(count, least, ca + cb - count);
    CouplingThreshold(count, least);
  }

  /** When a pair of any state has an edge, counts that no commits explain included. */
  lemma EdgeOfAnyState(st: Aggregates, key: string)
    requires key in st.pairs
    ensures EdgeOf(st, key).Some? <==>
              && st.pairs[key].count >= 3 && SplitKey(key).Some?
              && var (a, b) := SplitKey(key).value;
              && FileAt(st.fileChanges, a) > 0 && FileAt(st.fileChanges, b) > 0
              && (10 * st.pairs[key].count >= 3 * FileAt(st.fileChanges, a)
                  || 10 * st.pairs[key].count >= 3 * FileAt(st.fileChanges, b))
    ensures EdgeOf(st, key).Some? ==>
              var (a, b) := SplitKey(key).value;
              var either := FileAt(st.fileChanges, a) + FileAt(st.fileChanges, b) - st.pairs[key].count;
              EdgeOf(st, key).value.jaccard == if either <= 0 then 0.0 else st.pairs[key].count as real / either as real
  {
    hide SplitKey;
    if SplitKey(key).Some? {
      var (a, b) := SplitKey(key).value;
      var ca, cb := FileAt(st.fileChanges, a), FileAt(st.fileChanges, b);
      if ca > 0 && cb > 0 {
        CouplingThreshold(st.pairs[key].count, if ca < cb then ca else cb);
      }
    }
  }

  /** The edges are those of the listed pairs that join two nodes. */
  lemma EdgesJoinNodes(st: Aggregates, nodes: set<string>, keys: set<string>, e: Edge)
    requires keys <= st.pairs.Keys
    ensures e in EdgesFor(st, nodes, keys) <==>
              (exists key :: key in keys && EdgeOf(st, key) == Some(e)) && e.from in nodes && e.to in nodes
    ensures Landing(st, nodes, keys) ==
            set key | key in keys && EdgeOf(st, key).Some?
                      && EdgeOf(st, key).value.from in nodes && EdgeOf(st, key).value.to in nodes
  {
    hide EdgeOf;
    if exists key :: key in keys && EdgeOf(st, key) == Some(e) {
      var key :| key in keys && EdgeOf(st, key) == Some(e);
      assert Lands(st, nodes, key) <==> e.from in nodes && e.to in nodes;
    }
  }

  /** The values of an edge between files that changed `ca` and `cb` times, `both` times together: its support is
      the smaller of the two counts, and the ratios are the shared commits over it and over those that touch
      either file. */
  predicate HasRatios(e: Edge, ca: int, cb: int, both: int) {
    && e.cochangeCount == both && 0 < e.support <= ca && e.support <= cb && e.support in {ca, cb}
    && e.coupling * e.support as real == both as real
    && e.jaccard * (ca + cb - both) as real == both as real
    && 0.0 < e.jaccard <= e.coupling <= 1.0
  }

  lemma EdgeValues(st: Aggregates, key: string, a: string, b: string)
    requires key in st.pairs && SplitKey(key) == Some((a, b)) && EdgeOf(st, key).Some?
    requires 0 < st.pairs[key].count <= FileAt(st.fileChanges, a) && st.pairs[key].count <= FileAt(st.fileChanges, b)
    ensures var e := EdgeOf(st, key).value;
            HasRatios(e, FileAt(st.fileChanges, a), FileAt(st.fileChanges, b), st.pairs[key].count)
            && e.lastCoChange == st.pairs[key].lastTs
  {
    SupportedEdge(st, key, a, b);
    hide SplitKey;
  }

  /** For a state mined from commits, an edge is written exactly for the pairs that are frequent and
      coupled enough, with exactly these values and the time of the last commit of both. */
  lemma EdgeBounds(commits: seq<Commit>, key: string)
    requires forall c :: c in commits ==> PlainCommit(c)
    requires key in Accumulated(NOTHING, commits).pairs
    ensures SplitKey(key).Some?
    ensures var mined := Accumulated(NOTHING, commits);
            var (a, b) := SplitKey(key).value;
            var both, e := CommitsWith(commits, {a, b}), EdgeOf(mined, key);
            && (e.Some? <==> both >= 3
                             && (10 * both >= 3 * CommitsWith(commits, {a}) || 10 * both >= 3 * CommitsWith(commits, {b})))
            && (e.Some? ==> e.value.from == a && e.value.to == b
                            && HasRatios(e.value, CommitsWith(commits, {a}), CommitsWith(commits, {b}), both)
                            && IsLatest(e.value.lastCoChange, 0, commits, key))
  {
    assert MIN_COCHANGE == 3;
    hide *;
    PairsAreSupported(commits, key);
    var mined := Accumulated(NOTHING, commits);
    var a, b :| a != b && UNIT_SEPARATOR !in a && UNIT_SEPARATOR !in b && key == KeyOf(a, b)
                && 0 < mined.pairs[key].count <= FileAt(mined.fileChanges, a)
                && mined.pairs[key].count <= FileAt(mined.fileChanges, b);
    var x, y := KeySplits(a, b);
    MinedCounts(commits, x, y);
    MinedCounts(commits, y, x);
    PairHere(mined.pairs, key);
    SupportedEdge(mined, key, x, y);
    if EdgeOf(mined, key).Some? {
      EdgeValues(mined, key, x, y);
    }
  }

  lemma PairHere(pairs: map<string, PairAgg>, key: string)
    requires key in pairs
    ensures PairAt(pairs, key) == pairs[key]
  {
  }

  lemma KeySplits(a: string, b: string) returns (x: string, y: string)
    requires a != b && UNIT_SEPARATOR !in a && UNIT_SEPARATOR !in b
    ensures SplitKey(KeyOf(a, b)) == Some((x, y)) && KeyOf(x, y) == KeyOf(y, x) == KeyOf(a, b)
    ensures (x == a && y == b) || (x == b && y == a)
  {
    var r := Ordered(a, b);
    x, y := r.0, r.1;
    KeyRoundTrip(x, y);
    KeyNamesPair(x, y, a, b);
    KeyNamesPair(y, x, a, b);
  }

  lemma CouplingThreshold(count: int, least: int)
    requires 0 < least
    ensures count as real / least as real >= MIN_COUPLING <==> 10 * count >= 3 * least
  {
    var q := count as real / least as real;
    assert q * least as real == count as real;
    if q >= MIN_COUPLING {
      assert q * least as real >= MIN_COUPLING * least as real;
    } else {
      assert q * least as real < MIN_COUPLING * least as real;
    }
  }

  // ----- How many pairs there are -----

  function SumOfSizes(commits: seq<Commit>): nat {
    if commits == [] then 0
    else |CountedFiles(commits[0])| * (|CountedFiles(commits[0])| - 1) / 2 + SumOfSizes(commits[1..])
  }

  lemma {:induction false} KeysWithLength(f: string, others: seq<string>)
    ensures |KeysWith(f, others)| == |others|
  {
    if others != [] {
      KeysWithLength(f, others[1..]);
    }
  }

  lemma {:induction false} PairKeysLength(files: seq<string>)
    ensures 2 * |PairKeys(files)| == |files| * (|files| - 1)
  {
    if files != [] {
      KeysWithLength(files[0], files[1..]);
      PairKeysLength(files[1..]);
      var n := |files|;
      assert 2 * |PairKeys(files)| == 2 * (n - 1) + (n - 1) * (n - 2);
    }
  }

  lemma {:induction false} SummedKeysSize(commits: seq<Commit>)
    ensures |Sum(KeysOf, commits)| == SumOfSizes(commits)
  {
    hide PairKeys;
    if commits != [] {
      PairKeysLength(CountedFiles(commits[0]));
      SummedKeysSize(commits[1..]);
    }
  }

  /** The sum of the pair counts. */
  ghost function SumOfCounts(pairs: map<string, PairAgg>): int
    decreases |pairs|
  {
    if pairs == map[] then 0
    else
      var key :| key in pairs;
      assert (pairs - {key}).Keys == pairs.Keys - {key};
      pairs[key].count + SumOfCounts(pairs - {key})
  }

  lemma {:induction false} CountsSum(pairs: map<string, PairAgg>, keys: multiset<string>)
    requires forall key :: key in keys <==> key in pairs
    requires forall key :: key in pairs ==> pairs[key].count == keys[key]
    ensures SumOfCounts(pairs) == |keys|
    decreases |pairs|
  {
    if pairs == map[] {
      assert keys == multiset{};
    } else {
      var key :| key in pairs && SumOfCounts(pairs) == pairs[key].count + SumOfCounts(pairs - {key});
      assert (pairs - {key}).Keys == pairs.Keys - {key};
      CountsSum(pairs - {key}, keys[key := 0]);
      assert |keys| == |keys[key := 0]| + keys[key];
    }
  }

  /** Every counted commit of n files adds n(n-1)/2 to the pair counts: no pair is lost or doubled. */
  lemma PairsAreConserved(commits: seq<Commit>)
    ensures SumOfCounts(Accumulated(NOTHING, commits).pairs) == SumOfSizes(commits)
  {
    hide Accumulated, SumOfCounts;
    var pairs, keys := Accumulated(NOTHING, commits).pairs, Sum(KeysOf, commits);
    forall key
      ensures key in keys <==> key in pairs
      ensures key in pairs ==> pairs[key].count == keys[key]
    {
      AccumulatedCounts(NOTHING, commits, "", key);
    }
    CountsSum(pairs, keys);
    SummedKeysSize(commits);
  }
}
