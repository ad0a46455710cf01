/** The temporal-coupling miner of src/cochange.rs: how often files change together, mined from commits. */
module Cochange {
  import opened Prelude
  import opened TextOrder

  const MAX_FILES_PER_COMMIT := 20
  const MIN_COCHANGE := 3

  datatype Commit = Commit(files: seq<string>, ts: int)

  datatype PairAgg = PairAgg(count: int, lastTs: int)

  /** The mined aggregates. */
  datatype Aggregates = Aggregates(fileChanges: map<string, int>, pairs: map<string, PairAgg>)

  const NOTHING := Aggregates(map[], map[])

  // ----- Pair keys -----

  const UNIT_SEPARATOR := 0x1F as char

  function Ordered(a: string, b: string): (string, string) {
    if a == b || Less(a, b) then (a, b) else (b, a)
  }

  function PairKey(a: string, b: string): string {
    a + [UNIT_SEPARATOR] + b
  }

  function KeyOf(x: string, y: string): string {
    PairKey(Ordered(x, y).0, Ordered(x, y).1)
  }

  /** Index of the first unit separator, the length when there is none. */
  function SeparatorAt(s: string): (n: nat)
    ensures n <= |s| && UNIT_SEPARATOR !in s[..n] && (n < |s| ==> s[n] == UNIT_SEPARATOR)
  {
    if s == "" || s[0] == UNIT_SEPARATOR then 0
    else
      var n := 1 + SeparatorAt(s[1..]);
      assert s[..n] == [s[0]] + s[1..][..n - 1];
      n
  }

  /** The first two parts of a key, None when it has one part only. */
  function SplitKey(key: string): Option<(string, string)> {
    var n := SeparatorAt(key);
    if n == |key| then None
    else
      var rest := key[n + 1..];
      Some((key[..n], rest[..SeparatorAt(rest)]))
  }

  lemma {:induction false} SeparatorAfter(a: string, rest: string)
    requires UNIT_SEPARATOR !in a
    requires rest == "" || rest[0] == UNIT_SEPARATOR
    ensures SeparatorAt(a + rest) == |a|
  {
    if a == "" {
      assert a + rest == rest;
    } else {
      assert (a + rest)[0] == a[0] && a[0] in a;
      assert (a + rest)[1..] == a[1..] + rest;
      SeparatorAfter(a[1..], rest);
    }
  }

  /** A key gives back its two paths. */
  lemma KeyRoundTrip(a: string, b: string)
    requires UNIT_SEPARATOR !in a && UNIT_SEPARATOR !in b
    ensures SplitKey(PairKey(a, b)) == Some((a, b))
  {
    var key := PairKey(a, b);
    assert key == a + ([UNIT_SEPARATOR] + b);
    SeparatorAfter(a, [UNIT_SEPARATOR] + b);
    assert key[|a| + 1..] == b && key[..|a|] == a;
    SeparatorAfter(b, "");
    assert b + "" == b && b[..|b|] == b;
  }

  /** The key of a pair does not depend on the order of the two files, and no other pair has it. */
  lemma KeyNamesPair(x: string, y: string, u: string, v: string)
    requires forall s :: s in {x, y, u, v} ==> UNIT_SEPARATOR !in s
    ensures KeyOf(x, y) == KeyOf(u, v) <==> (x == u && y == v) || (x == v && y == u)
  {
    LessIsTotal(x, y);
    if Less(x, y) {
      LessIsAsymmetric(x, y);
    }
    KeyRoundTrip(Ordered(x, y).0, Ordered(x, y).1);
    KeyRoundTrip(Ordered(u, v).0, Ordered(u, v).1);
  }

  // ----- Folding one commit into the aggregates -----

  function FileAt(files: map<string, int>, f: string): int {
    if f in files then files[f] else 0
  }

  function PairAt(pairs: map<string, PairAgg>, key: string): PairAgg {
    if key in pairs then pairs[key] else PairAgg(0, 0)
  }

  function Max(a: int, b: int): int {
    if b > a then b else a
  }

  function BumpFiles(m: map<string, int>, files: seq<string>): map<string, int>
    decreases |files|
  {
    if files == [] then m else BumpFiles(m[files[0] := FileAt(m, files[0]) + 1], files[1..])
  }

  function Bump(m: map<string, PairAgg>, key: string, ts: int): map<string, PairAgg> {
    m[key := PairAgg(PairAt(m, key).count + 1, Max(PairAt(m, key).lastTs, ts))]
  }

  function BumpPairs(m: map<string, PairAgg>, keys: seq<string>, ts: int): map<string, PairAgg>
    decreases |keys|
  {
    if keys == [] then m else BumpPairs(Bump(m, keys[0], ts), keys[1..], ts)
  }

  function KeysWith(f: string, others: seq<string>): seq<string> {
    if others == [] then [] else [KeyOf(f, others[0])] + KeysWith(f, others[1..])
  }

  /** The keys of all unordered pairs of positions. */
  function PairKeys(files: seq<string>): seq<string> {
    if files == [] then [] else KeysWith(files[0], files[1..]) + PairKeys(files[1..])
  }

  /** Files whose change a commit counts: a sweep over many files is noise. */
  function CountedFiles(c: Commit): seq<string> {
    if |c.files| > MAX_FILES_PER_COMMIT then [] else c.files
  }

  /** Commits of up to 20 files count, larger ones not at all. */
  lemma SweepsAreNoise(c: Commit)
    ensures CountedFiles(c) == if |c.files| <= 20 then c.files else []
  {
  }

  function CountedKeys(c: Commit): seq<string> {
    PairKeys(CountedFiles(c))
  }

  function Folded(st: Aggregates, c: Commit): Aggregates {
    Aggregates(BumpFiles(st.fileChanges, CountedFiles(c)), BumpPairs(st.pairs, CountedKeys(c), c.ts))
  }

  function Accumulated(st: Aggregates, commits: seq<Commit>): Aggregates
    decreases |commits|
  {
    if commits == [] then st else Accumulated(Folded(st, commits[0]), commits[1..])
  }

  lemma AccumulatedStep(st: Aggregates, commits: seq<Commit>)
    requires commits != []
    ensures Accumulated(st, commits) == Accumulated(Folded(st, commits[0]), commits[1..])
  {
    hide Folded;
  }

  lemma NothingAccumulated(st: Aggregates)
    ensures Accumulated(st, []) == st
  {
  }

  lemma FoldedIs(st: Aggregates, c: Commit)
    requires |c.files| <= MAX_FILES_PER_COMMIT
    ensures Folded(st, c) == Aggregates(BumpFiles(st.fileChanges, c.files), BumpPairs(st.pairs, PairKeys(c.files), c.ts))
  {
  }

  /** A commit of one file counts for that file and has no pairs; a sweep or an empty commit has nothing. */
  lemma SmallCommit(st: Aggregates, c: Commit)
    requires |c.files| > MAX_FILES_PER_COMMIT || |c.files| < 2
    ensures Folded(st, c) ==
            if |c.files| == 1 then st.(fileChanges := st.fileChanges[c.files[0] := FileAt(st.fileChanges, c.files[0]) + 1])
            else st
  {
    if |c.files| == 1 {
      assert c.files[1..] == [];
      assert PairKeys(c.files) == KeysWith(c.files[0], []) + PairKeys([]) == [];
      assert CountedFiles(c) == c.files && CountedKeys(c) == [];
      assert BumpFiles(st.fileChanges[c.files[0] := FileAt(st.fileChanges, c.files[0]) + 1], []) ==
             st.fileChanges[c.files[0] := FileAt(st.fileChanges, c.files[0]) + 1];
    }
  }

  lemma BumpFirst(m: map<string, PairAgg>, key: string, rest: seq<string>, later: seq<string>, ts: int)
    ensures BumpPairs(m, ([key] + rest) + later, ts) == BumpPairs(Bump(m, key, ts), rest + later, ts)
  {
    assert (([key] + rest) + later)[1..] == rest + later;
  }

  // ----- The state as an object -----

  lemma PairKeysFrom(files: seq<string>, i: nat)
    requires i <= |files|
    ensures PairKeys(files[i..]) ==
            if i == |files| then [] else KeysWith(files[i], files[i + 1..]) + PairKeys(files[i + 1..])
  {
    if i < |files| {
      assert files[i..][1..] == files[i + 1..];
    }
  }

  lemma KeysWithFrom(f: string, files: seq<string>, j: nat)
    requires j <= |files|
    ensures KeysWith(f, files[j..]) ==
            if j == |files| then [] else [KeyOf(f, files[j])] + KeysWith(f, files[j + 1..])
  {
    if j < |files| {
      assert files[j..][1..] == files[j + 1..];
    }
  }

  lemma NothingToBump(m: map<string, PairAgg>, ts: int)
    ensures BumpPairs(m, [], ts) == m
  {
  }

  class CochangeState {
    var lastSha: string
    var fileChanges: map<string, int>
    var pairs: map<string, PairAgg>

    function View(): Aggregates
      reads this
    {
      Aggregates(fileChanges, pairs)
    }

    constructor ()
      ensures View() == NOTHING && lastSha == ""
    {
      lastSha, fileChanges, pairs := "", map[], map[];
    }

    /** Folds each commit's file set into the per-file and per-pair aggregates. */
    method Accumulate(commits: seq<Commit>)
      modifies this`fileChanges, this`pairs
      ensures View() == Accumulated(old(View()), commits)
    {
      hide Accumulated, Folded, PairKeys, BumpPairs, BumpFiles, CountedFiles, CountedKeys;
      for n := 0 to |commits|
        invariant Accumulated(View(), commits[n..]) == Accumulated(old(View()), commits)
      {
        var c := commits[n];
        ghost var before := View();
        assert commits[n..][1..] == commits[n + 1..];
        AccumulatedStep(before, commits[n..]);
        if |c.files| > MAX_FILES_PER_COMMIT || |c.files| < 2 {
          if |c.files| == 1 {
            fileChanges := fileChanges[c.files[0] := FileAt(fileChanges, c.files[0]) + 1];
          }
          SmallCommit(before, c);
          continue;
        }
        AccumulateFiles(c);
        AccumulatePairs(c);
        FoldedIs(before, c);
      }
      NothingAccumulated(View());
      assert commits[|commits|..] == [];
    }

    /** Each file of a commit is counted once. */
    method AccumulateFiles(c: Commit)
      modifies this`fileChanges
      ensures fileChanges == BumpFiles(old(fileChanges), c.files)
    {
      assert c.files[0..] == c.files;
      for k := 0 to |c.files|
        invariant BumpFiles(fileChanges, c.files[k..]) == BumpFiles(old(fileChanges), c.files)
      {
        assert c.files[k..][1..] == c.files[k + 1..];
        var f := c.files[k];
        fileChanges := fileChanges[f := FileAt(fileChanges, f) + 1];
      }
    }

    /** The two nested loops over the positions of one commit's files. */
    method AccumulatePairs(c: Commit)
      modifies this`pairs
      ensures pairs == BumpPairs(old(pairs), PairKeys(c.files), c.ts)
    {
      hide Less, Ordered, Max, PairKeys, KeysWith, BumpPairs, PairKey, Accumulated, Folded, BumpFiles;
      ghost var whole := BumpPairs(pairs, PairKeys(c.files), c.ts);
      assert c.files[0..] == c.files;
      for i := 0 to |c.files|
        invariant BumpPairs(pairs, PairKeys(c.files[i..]), c.ts) == whole
      {
        ghost var later := PairKeys(c.files[i + 1..]);
        PairKeysFrom(c.files, i);
        for j := i + 1 to |c.files|
          invariant BumpPairs(pairs, KeysWith(c.files[i], c.files[j..]) + later, c.ts) == whole
        {
          KeysWithFrom(c.files[i], c.files, j);
          ghost var rest := KeysWith(c.files[i], c.files[j + 1..]);
          BumpFirst(pairs, KeyOf(c.files[i], c.files[j]), rest, later, c.ts);
          var (a, b) := Ordered(c.files[i], c.files[j]);
          var key := PairKey(a, b);
          var agg := if key in pairs then pairs[key] else PairAgg(0, 0);
          agg := agg.(count := agg.count + 1, lastTs := Max(agg.lastTs, c.ts));
          pairs := pairs[key := agg];
        }
        KeysWithFrom(c.files[i], c.files, |c.files|);
        assert [] + later == later;
      }
      PairKeysFrom(c.files, |c.files|);
      NothingToBump(pairs, c.ts);
    }
  }
}
