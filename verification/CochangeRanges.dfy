/** The range of commits that `mine` of src/cochange.rs reads, and when extending an earlier state gives
    what a full mine of the window gives. */
module CochangeRanges {
  import opened Prelude
  import opened MultisetSums
  import opened Cochange
  import opened CochangeCounts

  /** A commit as `git log --no-merges` lists it; `committed` is the date that `--since` looks at. */
  datatype Entry = Entry(sha: string, commit: Commit, committed: int)

  type Log = seq<Entry>

  /** The commits of the clone, reachable from HEAD or not, and the log of what each commit reaches. */
  datatype Repo = Repo(objects: set<Entry>, histories: map<string, Log>, head: string) {
    /** HEAD is a commit, ids are unique, and a log lists commits of the clone once each. */
    ghost predicate Valid() {
      && head in histories
      && (forall e, f :: e in objects && f in objects && e.sha == f.sha ==> e == f)
      && forall sha :: sha in histories ==> Distinct(histories[sha]) && forall e :: e in histories[sha] ==> e in objects
    }
  }

  predicate Distinct(log: Log) {
    forall j, k :: 0 <= j < k < |log| ==> log[j].sha != log[k].sha
  }

  function CommitsOf(log: Log): seq<Commit> {
    if log == [] then [] else [log[0].commit] + CommitsOf(log[1..])
  }

  // ----- Which commits are read -----

  const MAX_COMMITS: nat := 10_000

  /** `--since`: the commits from the cutoff on. */
  function Recent(log: Log, cutoff: int): Log {
    if log == [] then []
    else (if log[0].committed >= cutoff then [log[0]] else []) + Recent(log[1..], cutoff)
  }

  /** What a full mine reads: the recent commits, as many as `--max-count` allows. */
  function Window(log: Log, cutoff: int): Log {
    var recent := Recent(log, cutoff);
    if |recent| <= MAX_COMMITS then recent else recent[..MAX_COMMITS]
  }

  predicate Lists(log: Log, sha: string) {
    exists k :: 0 <= k < |log| && log[k].sha == sha
  }

  /** `<sha>..HEAD`: the commits of one log that the other does not list. */
  function NotIn(log: Log, other: Log): Log {
    if log == [] then []
    else (if Lists(other, log[0].sha) then [] else [log[0]]) + NotIn(log[1..], other)
  }

  predicate IsHex(sha: string) {
    forall c :: c in sha ==> '0' <= c <= '9' || 'a' <= c <= 'f' || 'A' <= c <= 'F'
  }

  /** `git_known` asks whether the object exists, not whether HEAD still reaches it. */
  predicate GitKnown(repo: Repo, sha: string) {
    IsHex(sha) && sha in repo.histories
  }

  datatype Mode = Full | Incremental

  datatype Sidecar = Sidecar(lastSha: string, mined: Aggregates)

  predicate Extends(repo: Repo, mode: Mode, prior: Option<Sidecar>) {
    mode == Incremental && prior.Some? && prior.value.lastSha != "" && GitKnown(repo, prior.value.lastSha)
  }

  /** The new sidecar: an extension of the prior state, or the window from scratch. */
  function Mine(repo: Repo, cutoff: int, mode: Mode, prior: Option<Sidecar>): Sidecar
    requires repo.head in repo.histories
  {
    var log := repo.histories[repo.head];
    Sidecar(repo.head,
            if Extends(repo, mode, prior) then
              Accumulated(prior.value.mined, CommitsOf(NotIn(log, repo.histories[prior.value.lastSha])))
            else Accumulated(NOTHING, CommitsOf(Window(log, cutoff))))
  }

  // ----- Commits that count alike -----

  /** A full mine starts from nothing, whatever was mined before; so does an incremental one without a state whose
      commit is known. With such a state it extends it. */
  lemma MineIs(repo: Repo, cutoff: int, mode: Mode, prior: Option<Sidecar>)
    requires repo.Valid()
    ensures var log := repo.histories[repo.head];
            && Mine(repo, cutoff, Full, prior) == Sidecar(repo.head, Accumulated(NOTHING, CommitsOf(Window(log, cutoff))))
            && Mine(repo, cutoff, Incremental, prior) ==
               (if prior.None? || prior.value.lastSha == "" || !GitKnown(repo, prior.value.lastSha)
                then Mine(repo, cutoff, Full, None)
                else Sidecar(repo.head, Accumulated(prior.value.mined,
                                                    CommitsOf(NotIn(log, repo.histories[prior.value.lastSha])))))
  {
    hide Accumulated, Window, NotIn, GitKnown;
  }

  /** A commit id is known when it is spelled in hexadecimal digits and the clone has such an object. */
  lemma KnownIs(repo: Repo, sha: string)
    ensures GitKnown(repo, sha) <==>
              && sha in repo.histories
              && forall k :: 0 <= k < |sha| ==>
                   48 <= sha[k] as int < 58 || 65 <= sha[k] as int < 71 || 97 <= sha[k] as int < 103
  {
    forall c | c in sha
      ensures exists k :: 0 <= k < |sha| && sha[k] == c
    {
    }
    assert forall k :: 0 <= k < |sha| ==> sha[k] in sha;
  }

  lemma {:induction false} CommitsOfConcat(a: Log, b: Log)
    ensures CommitsOf(a + b) == CommitsOf(a) + CommitsOf(b)
  {
    if a == [] {
      assert a + b == b;
    } else {
      assert (a + b)[1..] == a[1..] + b;
      CommitsOfConcat(a[1..], b);
    }
  }

  lemma MinedIs(commits: seq<Commit>, f: string, key: string)
    ensures var x := Accumulated(NOTHING, commits);
            && (f in x.fileChanges <==> f in Sum(FilesOf, commits)) && FileAt(x.fileChanges, f) == Sum(FilesOf, commits)[f]
            && (key in x.pairs <==> key in Sum(KeysOf, commits))
            && PairAt(x.pairs, key) == PairAgg(Sum(KeysOf, commits)[key], LastFrom(0, commits, key))
  {
    AccumulatedCounts(NOTHING, commits, f, key);
  }

  lemma EqualMultisets<T(!new)>(a: multiset<T>, b: multiset<T>)
    requires forall x :: a[x] == b[x]
    ensures a == b
  {
  }

  /** The same files, the same pairs, and the same latest time of every pair. */
  ghost predicate Alike(a: seq<Commit>, b: seq<Commit>) {
    && Sum(FilesOf, a) == Sum(FilesOf, b) && Sum(KeysOf, a) == Sum(KeysOf, b)
    && forall key :: LastFrom(0, a, key) == LastFrom(0, b, key)
  }

  /** Two collections of commits are the same to the miner exactly when they are alike. */
  lemma SameToTheMiner(a: seq<Commit>, b: seq<Commit>)
    ensures Accumulated(NOTHING, a) == Accumulated(NOTHING, b) <==> Alike(a, b)
  {
    hide *;
    if Accumulated(NOTHING, a) == Accumulated(NOTHING, b) {
      SameAreAlike(a, b);
    } else if Alike(a, b) {
      AlikeAreSame(a, b);
    }
  }

  lemma SameAreAlike(a: seq<Commit>, b: seq<Commit>)
    requires Accumulated(NOTHING, a) == Accumulated(NOTHING, b)
    ensures Alike(a, b)
  {
    hide Accumulated, LastFrom, FilesOf, KeysOf, Sum;
    forall s
      ensures Sum(FilesOf, a)[s] == Sum(FilesOf, b)[s] && Sum(KeysOf, a)[s] == Sum(KeysOf, b)[s]
      ensures LastFrom(0, a, s) == LastFrom(0, b, s)
    {
      MinedIs(a, s, s);
      MinedIs(b, s, s);
    }
    EqualMultisets(Sum(FilesOf, a), Sum(FilesOf, b));
    EqualMultisets(Sum(KeysOf, a), Sum(KeysOf, b));
  }

  lemma AlikeAreSame(a: seq<Commit>, b: seq<Commit>)
    requires Alike(a, b)
    ensures Accumulated(NOTHING, a) == Accumulated(NOTHING, b)
  {
    hide Accumulated, LastFrom, FilesOf, KeysOf, Sum;
    var x, y := Accumulated(NOTHING, a), Accumulated(NOTHING, b);
    forall f, key
      ensures (f in x.fileChanges <==> f in y.fileChanges) && FileAt(x.fileChanges, f) == FileAt(y.fileChanges, f)
      ensures (key in x.pairs <==> key in y.pairs) && PairAt(x.pairs, key) == PairAt(y.pairs, key)
    {
      MinedIs(a, f, key);
      MinedIs(b, f, key);
      assert LastFrom(0, a, key) == LastFrom(0, b, key);
    }
    SameAggregates(x, y);
  }

  // ----- Extra commits -----

  lemma OneLess<T>(a: multiset<T>, b: multiset<T>, x: T)
    requires a + multiset{x} <= b + multiset{x}
    ensures a <= b
  {
    assert a == (a + multiset{x}) - multiset{x} && b == (b + multiset{x}) - multiset{x};
  }

  lemma {:induction false} Removed(all: Log, part: Log) returns (extra: Log)
    requires multiset(part) <= multiset(all)
    ensures multiset(all) == multiset(part) + multiset(extra)
    decreases |part|
  {
    if part == [] {
      extra := all;
    } else {
      var x := part[0];
      assert x in multiset(part) && x in multiset(all);
      var k :| 0 <= k < |all| && all[k] == x;
      MultisetWithout(all, k);
      MultisetWithout(part, 0);
      assert Without(part, 0) == part[1..];
      hide Without;
      OneLess(multiset(part[1..]), multiset(Without(all, k)), x);
      extra := Removed(Without(all, k), part[1..]);
    }
  }

  /** The entries of a collection beyond those of a part of it. */
  lemma Beyond(all: Log, part: Log) returns (extra: Log)
    requires multiset(part) <= multiset(all)
    ensures multiset(all) == multiset(part + extra) && multiset(extra) == multiset(all) - multiset(part)
  {
    extra := Removed(all, part);
    assert multiset(part + extra) == multiset(part) + multiset(extra);
    assert (multiset(part) + multiset(extra)) - multiset(part) == multiset(extra);
  }

  function CommitOf(e: Entry): multiset<Commit> {
    multiset{e.commit}
  }

  lemma {:induction false} CommitsOfIsSum(log: Log)
    ensures multiset(CommitsOf(log)) == Sum(CommitOf, log)
  {
    if log != [] {
      CommitsOfIsSum(log[1..]);
    }
  }

  lemma CommitsOfPermutation(a: Log, b: Log)
    requires multiset(a) == multiset(b)
    ensures multiset(CommitsOf(a)) == multiset(CommitsOf(b))
  {
    CommitsOfIsSum(a);
    CommitsOfIsSum(b);
    SumOfPermutation(CommitOf, a, b);
  }

  /** Commits without a counted file add nothing. */
  lemma {:induction false} NothingCounted(commits: seq<Commit>)
    requires forall c :: c in commits ==> CountedFiles(c) == []
    ensures forall st :: Accumulated(st, commits) == st
  {
    if commits != [] {
      assert CountedFiles(commits[0]) == [];
      forall st
        ensures Folded(st, commits[0]) == st
      {
      }
      NothingCounted(commits[1..]);
    }
  }

  lemma {:induction false} SumContains(commits: seq<Commit>, c: Commit, f: string)
    requires c in commits && f in CountedFiles(c)
    ensures Sum(FilesOf, commits)[f] > 0
  {
    if commits[0] != c {
      SumContains(commits[1..], c, f);
    }
  }

  /** Commits on top of others change nothing if and only if none of them has a counted file. */
  lemma ExtraCommits(base: seq<Commit>, extra: seq<Commit>)
    ensures Accumulated(NOTHING, base + extra) == Accumulated(NOTHING, base) <==>
            forall c :: c in extra ==> CountedFiles(c) == []
  {
    hide CountedFiles, FilesOf, KeysOf, LastFrom;
    AccumulatedConcat(NOTHING, base, extra);
    if forall c :: c in extra ==> CountedFiles(c) == [] {
      NothingCounted(extra);
    } else {
      var c :| c in extra && CountedFiles(c) != [];
      var f := CountedFiles(c)[0];
      SumContains(extra, c, f);
      SumConcat(FilesOf, base, extra);
      MinedIs(base, f, "");
      MinedIs(base + extra, f, "");
    }
  }

  /** What extending counts in all: what was counted before and the new range. */
  function Counted(repo: Repo, sha: string, counted: Log): Log
    requires repo.head in repo.histories && sha in repo.histories
  {
    counted + NotIn(repo.histories[repo.head], repo.histories[sha])
  }

  /** Extending gives what a full mine gives if and only if the commits it has counted in all and those of the
      window are alike, whether or not an earlier mine was cut by the cap. */
  lemma IncrementalIsAlike(repo: Repo, cutoff: int, sha: string, counted: Log)
    requires repo.Valid() && sha != "" && GitKnown(repo, sha)
    ensures var prior := Some(Sidecar(sha, Accumulated(NOTHING, CommitsOf(counted))));
            Mine(repo, cutoff, Incremental, prior) == Mine(repo, cutoff, Full, prior) <==>
            Alike(CommitsOf(Counted(repo, sha, counted)), CommitsOf(Window(repo.histories[repo.head], cutoff)))
  {
    assert sha in repo.histories;
    hide Accumulated, Window, NotIn, GitKnown, Alike;
    var log := repo.histories[repo.head];
    var range := NotIn(log, repo.histories[sha]);
    CommitsOfConcat(counted, range);
    AccumulatedConcat(NOTHING, CommitsOf(counted), CommitsOf(range));
    SameToTheMiner(CommitsOf(Counted(repo, sha, counted)), CommitsOf(Window(log, cutoff)));
  }

  /** As long as extending misses no commit of the window, it gives what a full mine gives if and only if
      every commit it counts that the window lacks, or counts twice, has no counted file. */
  lemma IncrementalIsFull(repo: Repo, cutoff: int, sha: string, counted: Log)
    requires repo.Valid() && sha != "" && GitKnown(repo, sha)
    requires multiset(Window(repo.histories[repo.head], cutoff)) <= multiset(Counted(repo, sha, counted))
    ensures var prior := Some(Sidecar(sha, Accumulated(NOTHING, CommitsOf(counted))));
            Mine(repo, cutoff, Incremental, prior) == Mine(repo, cutoff, Full, prior) <==>
            forall e :: e in multiset(Counted(repo, sha, counted)) - multiset(Window(repo.histories[repo.head], cutoff))
                        ==> CountedFiles(e.commit) == []
  {
    assert sha in repo.histories;
    hide Accumulated, CountedFiles, Window, NotIn, GitKnown;
    var log := repo.histories[repo.head];
    var window, all := Window(log, cutoff), Counted(repo, sha, counted);
    var extra := Beyond(all, window);
    var range := NotIn(log, repo.histories[sha]);
    CommitsOfConcat(counted, range);
    AccumulatedConcat(NOTHING, CommitsOf(counted), CommitsOf(range));
    CommitsOfPermutation(all, window + extra);
    CommitsOfConcat(window, extra);
    OrderDoesNotMatter(NOTHING, CommitsOf(all), CommitsOf(window) + CommitsOf(extra));
    ExtraCommits(CommitsOf(window), CommitsOf(extra));
    ExtraEntries(extra);
  }

  lemma {:induction false} ExtraEntries(extra: Log)
    ensures (forall c :: c in CommitsOf(extra) ==> CountedFiles(c) == []) <==>
            (forall e :: e in multiset(extra) ==> CountedFiles(e.commit) == [])
  {
    hide CountedFiles;
    if extra != [] {
      ExtraEntries(extra[1..]);
      assert extra == [extra[0]] + extra[1..];
    }
  }

  // ----- When no commit of the window is missed -----

  /** The commits from the cutoff on are among those counted. */
  predicate Covers(counted: Log, log: Log, cutoff: int) {
    forall e :: e in log && e.committed >= cutoff ==> e in counted
  }

  lemma {:induction false} RecentMembers(log: Log, cutoff: int, e: Entry)
    ensures e in Recent(log, cutoff) <==> e in log && e.committed >= cutoff
  {
    if log != [] {
      RecentMembers(log[1..], cutoff, e);
    }
  }

  lemma {:induction false} NotInMembers(log: Log, other: Log, e: Entry)
    ensures e in NotIn(log, other) <==> e in log && !Lists(other, e.sha)
  {
    if log != [] {
      NotInMembers(log[1..], other, e);
    }
  }

  lemma {:induction false} RecentIsDistinct(log: Log, cutoff: int)
    requires Distinct(log)
    ensures Distinct(Recent(log, cutoff))
  {
    if log != [] {
      RecentIsDistinct(log[1..], cutoff);
      var rest := Recent(log[1..], cutoff);
      forall k | 0 <= k < |rest|
        ensures rest[k].sha != log[0].sha
      {
        RecentMembers(log[1..], cutoff, rest[k]);
      }
    }
  }

  lemma {:induction false} DistinctOnce(log: Log, all: Log)
    requires Distinct(log) && forall e :: e in log ==> e in all
    ensures multiset(log) <= multiset(all)
  {
    if log != [] {
      var e := log[0];
      assert e in all;
      var k :| 0 <= k < |all| && all[k] == e;
      forall x | x in log[1..]
        ensures x in Without(all, k)
      {
        var i :| 0 <= i < |log[1..]| && log[1..][i] == x;
        assert log[i + 1].sha != log[0].sha && log[i + 1] == x && x in log;
        var j :| 0 <= j < |all| && all[j] == x;
        assert Without(all, k)[if j < k then j else j - 1] == x;
      }
      DistinctOnce(log[1..], Without(all, k));
      MultisetWithout(all, k);
      assert log == [e] + log[1..];
    }
  }

  /** A full mine that the cap does not cut covers its window. */
  lemma FullMineCovers(log: Log, cutoff: int)
    requires |Recent(log, cutoff)| <= MAX_COMMITS
    ensures Covers(Window(log, cutoff), log, cutoff)
  {
    forall e | e in log && e.committed >= cutoff
      ensures e in Window(log, cutoff)
    {
      RecentMembers(log, cutoff, e);
    }
  }

  /** Extending a state that covers its log covers the new one, rewritten or not, from then on. */
  lemma ExtendingCovers(repo: Repo, sha: string, counted: Log, oldCutoff: int, cutoff: int)
    requires repo.Valid() && sha in repo.histories && oldCutoff <= cutoff
    requires Covers(counted, repo.histories[sha], oldCutoff)
    ensures Covers(Counted(repo, sha, counted), repo.histories[repo.head], cutoff)
    ensures multiset(Window(repo.histories[repo.head], cutoff)) <= multiset(Counted(repo, sha, counted))
  {
    var log, other := repo.histories[repo.head], repo.histories[sha];
    var all := Counted(repo, sha, counted);
    forall e | e in log && e.committed >= cutoff
      ensures e in all
    {
      NotInMembers(log, other, e);
      if Lists(other, e.sha) {
        var k :| 0 <= k < |other| && other[k].sha == e.sha;
        assert other[k] in other && other[k] == e;
      }
    }
    var window := Window(log, cutoff);
    RecentIsDistinct(log, cutoff);
    forall e | e in window
      ensures e in all
    {
      RecentMembers(log, cutoff, e);
    }
    DistinctOnce(window, all);
  }

  // ----- Where extending differs -----

  /** Extending differs as soon as a commit with a counted file is counted and the window lacks it. */
  lemma ExtraEntryDiffers(repo: Repo, cutoff: int, sha: string, counted: Log, e: Entry)
    requires repo.Valid() && sha != "" && GitKnown(repo, sha)
    requires multiset(Window(repo.histories[repo.head], cutoff)) <= multiset(Counted(repo, sha, counted))
    requires e in counted && e !in Window(repo.histories[repo.head], cutoff) && CountedFiles(e.commit) != []
    ensures var prior := Some(Sidecar(sha, Accumulated(NOTHING, CommitsOf(counted))));
            Mine(repo, cutoff, Incremental, prior) != Mine(repo, cutoff, Full, prior)
  {
    IncrementalIsFull(repo, cutoff, sha, counted);
    hide Mine, Window, CountedFiles, CommitsOf;
    var all, window := multiset(Counted(repo, sha, counted)), multiset(Window(repo.histories[repo.head], cutoff));
    assert e in all && e !in window;
    assert e in all - window;
  }

  const TWO_FILES := Commit(["a.rs", "b.rs"], 1)
  const BEFORE_AMEND := Entry("a1", TWO_FILES, 10)
  const AFTER_AMEND := Entry("b2", TWO_FILES, 10)

  /** The one commit of a history is amended; the old object is still in the clone. */
  function Amended(head: string): Repo {
    Repo({BEFORE_AMEND, AFTER_AMEND}, map["a1" := [BEFORE_AMEND], "b2" := [AFTER_AMEND]], head)
  }

  lemma SingleWindow(e: Entry, cutoff: int)
    ensures Window([e], cutoff) == if e.committed >= cutoff then [e] else []
  {
    assert Recent([e], cutoff) == (if e.committed >= cutoff then [e] else []) + Recent([], cutoff);
  }

  lemma SingleNotIn(e: Entry, other: Log)
    ensures NotIn([e], other) == if Lists(other, e.sha) then [] else [e]
  {
    assert NotIn([e], other) == (if Lists(other, e.sha) then [] else [e]) + NotIn([], other);
  }

  lemma FullMine(repo: Repo, cutoff: int)
    requires repo.head in repo.histories
    ensures Mine(repo, cutoff, Full, None) ==
            Sidecar(repo.head, Accumulated(NOTHING, CommitsOf(Window(repo.histories[repo.head], cutoff))))
  {
  }

  lemma AmendedIsValid(head: string)
    requires head == "a1" || head == "b2"
    ensures Amended(head).Valid() && Amended(head).histories["a1"] == [BEFORE_AMEND] && GitKnown(Amended(head), "a1")
  {
    assert "a1"[1] != "b2"[1] && IsHex("a1");
  }

  lemma AmendedRanges()
    ensures "b2" in Amended("b2").histories && Window(Amended("b2").histories["b2"], 0) == [AFTER_AMEND]
    ensures "a1" in Amended("b2").histories
    ensures Counted(Amended("b2"), "a1", [BEFORE_AMEND]) == [BEFORE_AMEND, AFTER_AMEND]
  {
    assert "a1"[1] != "b2"[1];
    SingleWindow(AFTER_AMEND, 0);
    SingleNotIn(AFTER_AMEND, [BEFORE_AMEND]);
    assert !Lists([BEFORE_AMEND], "b2");
  }

  /** After an amend the incremental mine counts the commit twice, the full one once. */
  lemma AmendedCommitCountsTwice()
    ensures Amended("a1").Valid() && Amended("b2").Valid()
    ensures var prior := Some(Mine(Amended("a1"), 0, Full, None));
            Mine(Amended("b2"), 0, Incremental, prior) != Mine(Amended("b2"), 0, Full, prior)
  {
    AmendedIsValid("a1");
    AmendedIsValid("b2");
    AmendedRanges();
    SingleWindow(BEFORE_AMEND, 0);
    FullMine(Amended("a1"), 0);
    assert CountedFiles(TWO_FILES) != [] && BEFORE_AMEND.sha[0] != AFTER_AMEND.sha[0];
    hide Accumulated, Window, Mine, Counted, CommitsOf, GitKnown;
    assert multiset([BEFORE_AMEND, AFTER_AMEND]) == multiset([AFTER_AMEND]) + multiset{BEFORE_AMEND};
    ExtraEntryDiffers(Amended("b2"), 0, "a1", [BEFORE_AMEND], BEFORE_AMEND);
  }

  const NEWER := Entry("c3", TWO_FILES, 100)

  /** A commit on top of the first one. */
  function Grown(head: string): Repo {
    Repo({BEFORE_AMEND, NEWER}, map["a1" := [BEFORE_AMEND], "c3" := [NEWER, BEFORE_AMEND]], head)
  }

  lemma GrownIsValid(head: string)
    requires head == "a1" || head == "c3"
    ensures Grown(head).Valid() && Grown(head).histories["a1"] == [BEFORE_AMEND] && GitKnown(Grown(head), "a1")
  {
    assert "a1"[1] != "c3"[1] && IsHex("a1");
  }

  lemma GrownRanges()
    ensures "c3" in Grown("c3").histories && Window(Grown("c3").histories["c3"], 50) == [NEWER]
    ensures "a1" in Grown("c3").histories
    ensures Counted(Grown("c3"), "a1", [BEFORE_AMEND]) == [BEFORE_AMEND, NEWER]
  {
    assert "a1"[1] != "c3"[1];
    var log, counted := [NEWER, BEFORE_AMEND], [BEFORE_AMEND];
    assert log[1..] == [BEFORE_AMEND];
    assert Recent([BEFORE_AMEND], 50) == [] + Recent([], 50);
    assert Recent(log, 50) == [NEWER] + Recent([BEFORE_AMEND], 50);
    SingleNotIn(BEFORE_AMEND, counted);
    assert counted[0].sha == "a1";
    assert Lists(counted, "a1") && !Lists(counted, "c3");
    assert NotIn(log, counted) == [NEWER] + NotIn([BEFORE_AMEND], counted);
  }

  /** A commit that has left the window stays counted when a state is extended, and is gone from a full
      mine. */
  lemma ExpiredCommitStays()
    ensures Grown("a1").Valid() && Grown("c3").Valid()
    ensures var prior := Some(Mine(Grown("a1"), 0, Full, None));
            Mine(Grown("c3"), 50, Incremental, prior) != Mine(Grown("c3"), 50, Full, prior)
  {
    GrownIsValid("a1");
    GrownIsValid("c3");
    GrownRanges();
    SingleWindow(BEFORE_AMEND, 0);
    FullMine(Grown("a1"), 0);
    assert CountedFiles(TWO_FILES) != [] && BEFORE_AMEND.sha[0] != NEWER.sha[0];
    hide Accumulated, Window, Mine, Counted, CommitsOf, GitKnown;
    assert multiset([BEFORE_AMEND, NEWER]) == multiset([NEWER]) + multiset{BEFORE_AMEND};
    ExtraEntryDiffers(Grown("c3"), 50, "a1", [BEFORE_AMEND], BEFORE_AMEND);
  }
}
