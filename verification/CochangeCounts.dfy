/** What the mined aggregates of src/cochange.rs are: exact counts of commits, whatever their order. */
module CochangeCounts {
  import opened MultisetSums
  import opened Cochange

  function FilesOf(c: Commit): multiset<string> {
    multiset(CountedFiles(c))
  }

  function KeysOf(c: Commit): multiset<string> {
    multiset(CountedKeys(c))
  }

  /** The latest time of a commit with this pair, starting from `base`. */
  function LastFrom(base: int, commits: seq<Commit>, key: string): int
    decreases |commits|
  {
    if commits == [] then base
    else LastFrom(if key in CountedKeys(commits[0]) then Max(base, commits[0].ts) else base, commits[1..], key)
  }

  lemma {:induction false} BumpFilesCounts(m: map<string, int>, files: seq<string>, f: string)
    ensures f in BumpFiles(m, files) <==> f in m || f in files
    ensures FileAt(BumpFiles(m, files), f) == FileAt(m, f) + multiset(files)[f]
    decreases |files|
  {
    if files != [] {
      BumpFilesCounts(m[files[0] := FileAt(m, files[0]) + 1], files[1..], f);
      assert files == [files[0]] + files[1..];
    }
  }

  lemma {:induction false} BumpPairsCounts(m: map<string, PairAgg>, keys: seq<string>, ts: int, key: string)
    ensures key in BumpPairs(m, keys, ts) <==> key in m || key in keys
    ensures PairAt(BumpPairs(m, keys, ts), key).count == PairAt(m, key).count + multiset(keys)[key]
    ensures PairAt(BumpPairs(m, keys, ts), key).lastTs ==
            if key in keys then Max(PairAt(m, key).lastTs, ts) else PairAt(m, key).lastTs
    decreases |keys|
  {
    if keys != [] {
      BumpPairsCounts(Bump(m, keys[0], ts), keys[1..], ts, key);
      assert keys == [keys[0]] + keys[1..];
    }
  }

  /** After any commits, from any state: each file and each pair has gained exactly its number of
      occurrences, and the time of a pair is the latest seen. */
  lemma {:induction false} AccumulatedCounts(st: Aggregates, commits: seq<Commit>, f: string, key: string)
    ensures var after := Accumulated(st, commits);
            && (f in after.fileChanges <==> f in st.fileChanges || f in Sum(FilesOf, commits))
            && FileAt(after.fileChanges, f) == FileAt(st.fileChanges, f) + Sum(FilesOf, commits)[f]
            && (key in after.pairs <==> key in st.pairs || key in Sum(KeysOf, commits))
            && PairAt(after.pairs, key) == PairAgg(PairAt(st.pairs, key).count + Sum(KeysOf, commits)[key],
                                                   LastFrom(PairAt(st.pairs, key).lastTs, commits, key))
    decreases |commits|
  {
    hide CountedKeys, CountedFiles, BumpFiles, BumpPairs;
    if commits != [] {
      var c := commits[0];
      BumpFilesCounts(st.fileChanges, CountedFiles(c), f);
      BumpPairsCounts(st.pairs, CountedKeys(c), c.ts, key);
      AccumulatedCounts(Folded(st, c), commits[1..], f, key);
    }
  }

  // ----- The latest time does not depend on the order -----

  ghost predicate IsLatest(last: int, base: int, commits: seq<Commit>, key: string) {
    && base <= last
    && (forall c :: c in commits && key in CountedKeys(c) ==> c.ts <= last)
    && (last == base || exists c :: c in commits && key in CountedKeys(c) && c.ts == last)
  }

  lemma {:induction false} LastIsLatest(base: int, commits: seq<Commit>, key: string)
    ensures IsLatest(LastFrom(base, commits, key), base, commits, key)
    decreases |commits|
  {
    hide CountedKeys;
    if commits != [] {
      var c := commits[0];
      var next := if key in CountedKeys(c) then Max(base, c.ts) else base;
      LastIsLatest(next, commits[1..], key);
      var last := LastFrom(base, commits, key);
      assert forall x :: x in commits ==> x == c || x in commits[1..];
      if last != next {
        var x :| x in commits[1..] && key in CountedKeys(x) && x.ts == last;
        assert x in commits;
      } else if next != base {
        assert c in commits && key in CountedKeys(c) && c.ts == last;
      }
    }
  }

  lemma SameLatest(base: int, a: seq<Commit>, b: seq<Commit>, key: string)
    requires multiset(a) == multiset(b)
    ensures LastFrom(base, a, key) == LastFrom(base, b, key)
  {
    hide CountedKeys;
    LastIsLatest(base, a, key);
    LastIsLatest(base, b, key);
    assert forall c :: c in a <==> c in multiset(a);
    assert forall c :: c in b <==> c in multiset(b);
  }

  /** The result is the same for every order of the commits. */
  lemma OrderDoesNotMatter(st: Aggregates, a: seq<Commit>, b: seq<Commit>)
    requires multiset(a) == multiset(b)
    ensures Accumulated(st, a) == Accumulated(st, b)
  {
    hide CountedKeys, CountedFiles, LastFrom, Accumulated;
    SumOfPermutation(FilesOf, a, b);
    SumOfPermutation(KeysOf, a, b);
    var x, y := Accumulated(st, a), Accumulated(st, b);
    forall f, key
      ensures (f in x.fileChanges <==> f in y.fileChanges) && FileAt(x.fileChanges, f) == FileAt(y.fileChanges, f)
      ensures (key in x.pairs <==> key in y.pairs) && PairAt(x.pairs, key) == PairAt(y.pairs, key)
    {
      AccumulatedCounts(st, a, f, key);
      AccumulatedCounts(st, b, f, key);
      SameLatest(PairAt(st.pairs, key).lastTs, a, b, key);
    }
    SameAggregates(x, y);
  }

  lemma SameAggregates(x: Aggregates, y: Aggregates)
    requires forall f :: (f in x.fileChanges <==> f in y.fileChanges) && FileAt(x.fileChanges, f) == FileAt(y.fileChanges, f)
    requires forall key :: (key in x.pairs <==> key in y.pairs) && PairAt(x.pairs, key) == PairAt(y.pairs, key)
    ensures x == y
  {
    assert x.fileChanges.Keys == y.fileChanges.Keys;
    forall f | f in x.fileChanges
      ensures x.fileChanges[f] == y.fileChanges[f]
    {
      assert FileAt(x.fileChanges, f) == FileAt(y.fileChanges, f);
    }
    assert x.pairs.Keys == y.pairs.Keys;
    forall key | key in x.pairs
      ensures x.pairs[key] == y.pairs[key]
    {
      assert PairAt(x.pairs, key) == PairAt(y.pairs, key);
    }
  }

  lemma {:induction false} AccumulatedConcat(st: Aggregates, a: seq<Commit>, b: seq<Commit>)
    ensures Accumulated(st, a + b) == Accumulated(Accumulated(st, a), b)
    decreases |a|
  {
    hide Folded;
    if a == [] {
      assert a + b == b;
    } else {
      assert (a + b)[1..] == a[1..] + b;
      AccumulatedConcat(Folded(st, a[0]), a[1..], b);
    }
  }

  /** Extending a mined state with newer commits is mining all of them, listed newest first as git does. */
  lemma ExtendingIsRemining(st: Aggregates, older: seq<Commit>, newer: seq<Commit>)
    ensures Accumulated(Accumulated(st, older), newer) == Accumulated(st, newer + older)
  {
    AccumulatedConcat(st, older, newer);
    assert multiset(older + newer) == multiset(newer + older);
    OrderDoesNotMatter(st, older + newer, newer + older);
  }

  // ----- Counts of commits -----

  /** The paths of one commit: each named once, none with the key separator in it. */
  predicate PlainCommit(c: Commit) {
    && (forall j, k :: 0 <= j < k < |c.files| ==> c.files[j] != c.files[k])
    && (forall f :: f in c.files ==> UNIT_SEPARATOR !in f)
  }

  predicate Touches(c: Commit, names: set<string>) {
    forall f :: f in names ==> f in CountedFiles(c)
  }

  /** Number of counted commits that contain all of these files. */
  function CommitsWith(commits: seq<Commit>, names: set<string>): nat {
    if commits == [] then 0 else (if Touches(commits[0], names) then 1 else 0) + CommitsWith(commits[1..], names)
  }

  lemma {:induction false} DistinctOccursOnce(files: seq<string>, f: string)
    requires forall j, k :: 0 <= j < k < |files| ==> files[j] != files[k]
    ensures multiset(files)[f] == if f in files then 1 else 0
  {
    if files != [] {
      assert files == [files[0]] + files[1..];
      DistinctOccursOnce(files[1..], f);
    }
  }

  lemma {:induction false} FileCountIsCommits(commits: seq<Commit>, f: string)
    requires forall c :: c in commits ==> PlainCommit(c)
    ensures Sum(FilesOf, commits)[f] == CommitsWith(commits, {f})
  {
    if commits != [] {
      assert commits[0] in commits;
      DistinctOccursOnce(CountedFiles(commits[0]), f);
      FileCountIsCommits(commits[1..], f);
    }
  }

  lemma {:induction false} KeysWithCount(f: string, others: seq<string>, a: string, b: string)
    requires forall j, k :: 0 <= j < k < |others| ==> others[j] != others[k]
    requires f !in others && a != b
    requires forall s :: s in others || s in {f, a, b} ==> UNIT_SEPARATOR !in s
    ensures multiset(KeysWith(f, others))[KeyOf(a, b)] ==
            if (f == a && b in others) || (f == b && a in others) then 1 else 0
  {
    hide KeyOf;
    if others != [] {
      var x, rest := others[0], others[1..];
      assert x in others && forall s :: s in rest ==> s in others;
      KeyNamesPair(f, x, a, b);
      KeysWithCount(f, rest, a, b);
      assert KeysWith(f, others) == [KeyOf(f, x)] + KeysWith(f, rest);
      assert x !in rest;
    }
  }

  /** Two files of a commit make one pair, whatever their positions. */
  lemma {:induction false} PairKeysCount(files: seq<string>, a: string, b: string)
    requires forall j, k :: 0 <= j < k < |files| ==> files[j] != files[k]
    requires a != b && forall s :: s in files || s in {a, b} ==> UNIT_SEPARATOR !in s
    ensures multiset(PairKeys(files))[KeyOf(a, b)] == if a in files && b in files then 1 else 0
  {
    hide KeyOf;
    if files != [] {
      var f, rest := files[0], files[1..];
      assert f in files && f !in rest && forall s :: s in rest ==> s in files;
      KeysWithCount(f, rest, a, b);
      PairKeysCount(rest, a, b);
    }
  }

  lemma {:induction false} PairCountIsCommits(commits: seq<Commit>, a: string, b: string)
    requires forall c :: c in commits ==> PlainCommit(c)
    requires a != b && UNIT_SEPARATOR !in a && UNIT_SEPARATOR !in b
    ensures Sum(KeysOf, commits)[KeyOf(a, b)] == CommitsWith(commits, {a, b})
  {
    hide KeyOf;
    if commits != [] {
      assert commits[0] in commits;
      PairKeysCount(CountedFiles(commits[0]), a, b);
      PairCountIsCommits(commits[1..], a, b);
      assert Touches(commits[0], {a, b}) <==> a in CountedFiles(commits[0]) && b in CountedFiles(commits[0]);
    }
  }

  /** Mined from scratch, the counts are the numbers of commits with the file, and with both files. */
  lemma MinedCounts(commits: seq<Commit>, a: string, b: string)
    requires forall c :: c in commits ==> PlainCommit(c)
    requires a != b && UNIT_SEPARATOR !in a && UNIT_SEPARATOR !in b
    ensures var mined := Accumulated(NOTHING, commits);
            && FileAt(mined.fileChanges, a) == CommitsWith(commits, {a})
            && PairAt(mined.pairs, KeyOf(a, b)).count == CommitsWith(commits, {a, b})
            && IsLatest(PairAt(mined.pairs, KeyOf(a, b)).lastTs, 0, commits, KeyOf(a, b))
            && (KeyOf(a, b) in mined.pairs <==> CommitsWith(commits, {a, b}) > 0)
  {
    hide Accumulated, KeyOf;
    AccumulatedCounts(NOTHING, commits, a, KeyOf(a, b));
    FileCountIsCommits(commits, a);
    PairCountIsCommits(commits, a, b);
    LastIsLatest(0, commits, KeyOf(a, b));
  }

  lemma {:induction false} FewerCommits(commits: seq<Commit>, names: set<string>, fewer: set<string>)
    requires fewer <= names
    ensures CommitsWith(commits, names) <= CommitsWith(commits, fewer)
  {
    if commits != [] {
      FewerCommits(commits[1..], names, fewer);
    }
  }

  // ----- Every key is a pair -----

  lemma {:induction false} KeysWithArePairs(f: string, others: seq<string>, key: string)
    requires key in KeysWith(f, others)
    ensures exists x :: x in others && key == KeyOf(f, x)
  {
    hide KeyOf;
    if key != KeyOf(f, others[0]) {
      KeysWithArePairs(f, others[1..], key);
      var x :| x in others[1..] && key == KeyOf(f, x);
      assert x in others;
    } else {
      assert others[0] in others;
    }
  }

  lemma {:induction false} KeysArePairs(files: seq<string>, key: string)
    requires forall j, k :: 0 <= j < k < |files| ==> files[j] != files[k]
    requires key in PairKeys(files)
    ensures exists a, b :: a in files && b in files && a != b && key == KeyOf(a, b)
  {
    hide KeyOf;
    var f, rest := files[0], files[1..];
    if key in KeysWith(f, rest) {
      KeysWithArePairs(f, rest, key);
      var x :| x in rest && key == KeyOf(f, x);
      assert f in files && x in files && f != x;
    } else {
      KeysArePairs(rest, key);
      var a, b :| a in rest && b in rest && a != b && key == KeyOf(a, b);
      assert a in files && b in files;
    }
  }

  lemma {:induction false} SummedKeysArePairs(commits: seq<Commit>, key: string)
    requires forall c :: c in commits ==> PlainCommit(c)
    requires key in Sum(KeysOf, commits)
    ensures exists a, b :: a != b && UNIT_SEPARATOR !in a && UNIT_SEPARATOR !in b && key == KeyOf(a, b)
  {
    hide KeyOf, PairKeys;
    if key in CountedKeys(commits[0]) {
      assert commits[0] in commits;
      KeysArePairs(CountedFiles(commits[0]), key);
      var a, b :| a in CountedFiles(commits[0]) && b in CountedFiles(commits[0]) && a != b && key == KeyOf(a, b);
      assert UNIT_SEPARATOR !in a && UNIT_SEPARATOR !in b;
    } else {
      SummedKeysArePairs(commits[1..], key);
    }
  }
}
