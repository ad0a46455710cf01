/** How far the string tests of src/ambiguity_policy.rs are from what their comments say: a suffix by path
    segments, the caller's own file, the caller's package. For each tier, when the answers differ. */
module TierPrecision {
  import opened Prelude
  import opened AmbiguityPolicy

  // ----- Path segments -----

  function Segments(path: string): (parts: seq<string>)
    ensures parts != []
  {
    if path == "" then [""]
    else
      var parts := Segments(path[1..]);
      if path[0] == '/' then [""] + parts else [[path[0]] + parts[0]] + parts[1..]
  }

  predicate IsTail<T(==)>(short: seq<T>, long: seq<T>) {
    |short| <= |long| && long[|long| - |short|..] == short
  }

  /** The tail of that length starts where a segment does. */
  predicate AtSegment(long: string, length: nat)
    requires length <= |long|
  {
    length == |long| || long[|long| - length - 1] == '/'
  }

  lemma {:induction false} SegmentsAreInjective(a: string, b: string)
    requires Segments(a) == Segments(b)
    ensures a == b
  {
    if a != "" && b != "" {
      var x, y := Segments(a[1..]), Segments(b[1..]);
      if a[0] == '/' && b[0] == '/' {
        assert x == Segments(a)[1..] && y == Segments(b)[1..];
        SegmentsAreInjective(a[1..], b[1..]);
      } else if a[0] != '/' && b[0] != '/' {
        assert Segments(a)[0][0] == a[0] && Segments(b)[0][0] == b[0];
        assert Segments(a)[0][1..] == x[0] && Segments(b)[0][1..] == y[0];
        assert Segments(a)[1..] == x[1..] && Segments(b)[1..] == y[1..];
        assert x == [x[0]] + x[1..] && y == [y[0]] + y[1..];
        SegmentsAreInjective(a[1..], b[1..]);
      }
      assert a == [a[0]] + a[1..] && b == [b[0]] + b[1..];
    }
  }

  lemma {:induction false} SegmentsOfJoined(a: string, b: string)
    ensures Segments(a + "/" + b) == Segments(a) + Segments(b)
  {
    var s := a + "/" + b;
    if a == "" {
      assert s[1..] == b;
    } else {
      assert s[1..] == a[1..] + "/" + b;
      SegmentsOfJoined(a[1..], b);
    }
  }

  /** A text is a tail by segments exactly when it is a tail that starts where a segment does. */
  lemma TailBySegments(long: string, short: string)
    ensures IsTail(Segments(short), Segments(long)) <==> EndsWith(long, short) && AtSegment(long, |short|)
  {
    if EndsWith(long, short) && AtSegment(long, |short|) && |short| < |long| {
      var front := long[..|long| - |short| - 1];
      assert long == front + "/" + short;
      SegmentsOfJoined(front, short);
    } else if EndsWith(long, short) && |short| == |long| {
      assert long == short;
    }
    if IsTail(Segments(short), Segments(long)) {
      TailStartsSegment(long, short);
    }
  }

  lemma {:induction false} TailStartsSegment(long: string, short: string)
    requires IsTail(Segments(short), Segments(long))
    ensures EndsWith(long, short) && AtSegment(long, |short|)
  {
    if |Segments(short)| == |Segments(long)| {
      assert Segments(long)[0..] == Segments(long);
      SegmentsAreInjective(long, short);
    } else {
      var rest := long[1..];
      assert IsTail(Segments(short), Segments(rest));
      TailStartsSegment(rest, short);
      assert long[|long| - |short|..] == rest[|rest| - |short|..];
      if |rest| == |short| {
        assert rest == short;
      }
    }
  }

  // ----- One import -----

  /** One of the two is a tail of the other by path segments. */
  predicate MatchesBySegments(qualifiedName: string, imp: string) {
    var name, path := Segments(SlashColons(qualifiedName)), Segments(SlashDots(SlashColons(imp)));
    IsTail(path, name) || IsTail(name, path)
  }

  /** The longer one is cut where a segment starts. */
  predicate CutsAtSegment(qualifiedName: string, imp: string) {
    var name, path := SlashColons(qualifiedName), SlashDots(SlashColons(imp));
    if |path| <= |name| then AtSegment(name, |path|) else AtSegment(path, |name|)
  }

  /** The match by characters is the match by segments if and only if it cuts at a segment when it cuts. */
  lemma SuffixIsSegmentSuffix(qualifiedName: string, imp: string)
    ensures MatchesBySegments(qualifiedName, imp) <==> MatchesImport(qualifiedName, imp) && CutsAtSegment(qualifiedName, imp)
    ensures (MatchesImport(qualifiedName, imp) <==> MatchesBySegments(qualifiedName, imp)) <==>
            (MatchesImport(qualifiedName, imp) ==> CutsAtSegment(qualifiedName, imp))
  {
    hide Segments, IsTail;
    var name, path := SlashColons(qualifiedName), SlashDots(SlashColons(imp));
    TailBySegments(name, path);
    TailBySegments(path, name);
  }

  lemma {:induction false} NoSeparatorsNoChange(s: string)
    requires ':' !in s && '.' !in s
    ensures SlashColons(s) == SlashDots(s) == s
  {
    if s != "" {
      NoSeparatorsNoChange(s[1..]);
    }
  }

  /** An import of `ser` matches a symbol `parser`, inside its only segment. */
  lemma MatchIgnoresSegments()
    ensures MatchesImport("parser", "ser") && !MatchesBySegments("parser", "ser")
  {
    NoSeparatorsNoChange("parser");
    NoSeparatorsNoChange("ser");
    SuffixIsSegmentSuffix("parser", "ser");
  }

  // ----- One tier -----

  /** The candidate at this position passes the code's test and not the intended one. */
  predicate Stray<T>(candidates: seq<Candidate<T>>, code: Test, intended: Test, k: nat) {
    k < |candidates| && code(candidates[k].qualifiedName) && !intended(candidates[k].qualifiedName)
  }

  /** A stray candidate is alone at the tier, or keeps the one that belongs there from being alone. */
  predicate Misled<T(==)>(candidates: seq<Candidate<T>>, code: Test, intended: Test) {
    || (exists k :: 0 <= k < |candidates| && AloneAt(candidates, code, k) && Stray(candidates, code, intended, k))
    || (exists j, k :: 0 <= j < |candidates| && 0 <= k < |candidates|
                       && AloneAt(candidates, intended, k) && Stray(candidates, code, intended, j))
  }

  predicate Stricter<T(==)>(candidates: seq<Candidate<T>>, code: Test, intended: Test) {
    forall c :: c in candidates && intended(c.qualifiedName) ==> code(c.qualifiedName)
  }

  lemma OnlyAt<T>(candidates: seq<Candidate<T>>, test: Test) returns (k: Option<nat>)
    ensures k.Some? ==> AloneAt(candidates, test, k.value) && Only(candidates, test) == Some(candidates[k.value])
    ensures k.None? ==> Only(candidates, test) == None && forall j :: !AloneAt(candidates, test, j)
  {
    hide Matching, AloneAt;
    if |Matching(candidates, test)| == 1 {
      var at := MatchedIsAlone(candidates, test);
      k := Some(at);
    } else {
      k := None;
      forall j | AloneAt(candidates, test, j)
        ensures false
      {
        AloneIsMatched(candidates, test, j);
      }
    }
  }

  /** The tier's answer is not the intended one exactly when a stray candidate misleads it. */
  lemma TierAgrees<T>(candidates: seq<Candidate<T>>, code: Test, intended: Test)
    requires Stricter(candidates, code, intended)
    ensures Only(candidates, code) != Only(candidates, intended) <==> Misled(candidates, code, intended)
  {
    hide Only;
    var i := OnlyAt(candidates, code);
    var j := OnlyAt(candidates, intended);
    assert forall k :: 0 <= k < |candidates| ==> candidates[k] in candidates;
    if i.Some? && j.Some? {
      assert code(candidates[j.value].qualifiedName) && i == j;
    } else if i.Some? {
      assert !intended(candidates[i.value].qualifiedName) by {
        assert !AloneAt(candidates, intended, i.value);
      }
      assert Stray(candidates, code, intended, i.value);
    } else if j.Some? {
      assert !AloneAt(candidates, code, j.value);
      var k :| 0 <= k < |candidates| && k != j.value && code(candidates[k].qualifiedName);
      assert Stray(candidates, code, intended, k);
    }
  }

  // ----- The tiers of the policy -----

  /** The policy with other tests at its three tiers. */
  function ResolveBy<T>(candidates: seq<Candidate<T>>, byImport: Test, byFile: Test, byPackage: Test): Resolution<Candidate<T>>
  {
    if candidates == [] then NotFound
    else if |candidates| == 1 then Decided(candidates[0], UniqueGlobal)
    else
      match Only(candidates, byImport)
      case Some(c) => Decided(c, ImportMatch)
      case None =>
        match Only(candidates, byFile)
        case Some(c) => Decided(c, SameFileUnique)
        case None =>
          match Only(candidates, byPackage)
          case Some(c) => Decided(c, PackageProximity)
          case None => Ambiguous(candidates)
  }

  /** Some import has the name as a tail by segments, or is one. */
  predicate InScope(qualifiedName: string, imports: seq<string>) {
    exists imp :: imp in imports && MatchesBySegments(qualifiedName, imp)
  }

  /** The name is defined in the file: the file, `::`, and a symbol. */
  predicate DefinedIn(qualifiedName: string, file: string) {
    HasPrefix(qualifiedName, file + "::")
  }

  /** The name goes on from the package with a separator, or is the package. */
  predicate InPackage(qualifiedName: string, package: string) {
    qualifiedName == package || HasPrefix(qualifiedName, package + "/") || HasPrefix(qualifiedName, package + "::")
  }

  function BySegments(ctx: Context): Test {
    name => InScope(name, ctx.importsInScope)
  }

  function ByOwnFile(ctx: Context): Test {
    name => DefinedIn(name, ctx.callerFile)
  }

  function ByOwnPackage(ctx: Context): Test {
    name => ctx.callerPackage.Some? && InPackage(name, ctx.callerPackage.value)
  }

  /** What the string test adds: a file whose name goes on, as `src/a.pyi` does from `src/a.py`. */
  lemma PrefixIsOwnFile(qualifiedName: string, file: string)
    ensures DefinedIn(qualifiedName, file) <==>
              HasPrefix(qualifiedName, file) && At(qualifiedName, |file|, ':') && At(qualifiedName, |file| + 1, ':')
  {
    PrefixOfJoined(qualifiedName, file, "::");
  }

  lemma PrefixIsPackage(qualifiedName: string, package: string)
    ensures InPackage(qualifiedName, package) <==>
              && HasPrefix(qualifiedName, package)
              && (|qualifiedName| == |package| || At(qualifiedName, |package|, '/')
                  || (At(qualifiedName, |package|, ':') && At(qualifiedName, |package| + 1, ':')))
  {
    PrefixOfJoined(qualifiedName, package, "::");
    PrefixOfJoined(qualifiedName, package, "/");
  }

  lemma PrefixOfJoined(s: string, p: string, q: string)
    ensures HasPrefix(s, p + q) <==> HasPrefix(s, p) && HasPrefix(s[|p|..], q)
  {
    if |p| + |q| <= |s| {
      assert s[..|p| + |q|] == s[..|p|] + s[|p|..][..|q|];
      assert (p + q)[..|p|] == p && (p + q)[|p|..] == q;
    }
  }

  lemma OtherFileIsAccepted()
    ensures HasPrefix("src/a.pyi::f", "src/a.py") && !DefinedIn("src/a.pyi::f", "src/a.py")
  {
    PrefixIsOwnFile("src/a.pyi::f", "src/a.py");
  }

  lemma TestsAreStricter<T>(candidates: seq<Candidate<T>>, ctx: Context)
    ensures Stricter(candidates, ByImport(ctx), BySegments(ctx))
    ensures Stricter(candidates, ByFile(ctx), ByOwnFile(ctx))
    ensures Stricter(candidates, ByPackage(ctx), ByOwnPackage(ctx))
  {
    hide MatchesImport, MatchesBySegments, CutsAtSegment, HasPrefix, DefinedIn, InPackage;
    forall c | c in candidates
      ensures BySegments(ctx)(c.qualifiedName) ==> ByImport(ctx)(c.qualifiedName)
      ensures ByOwnFile(ctx)(c.qualifiedName) ==> ByFile(ctx)(c.qualifiedName)
      ensures ByOwnPackage(ctx)(c.qualifiedName) ==> ByPackage(ctx)(c.qualifiedName)
    {
      forall imp | MatchesBySegments(c.qualifiedName, imp)
        ensures MatchesImport(c.qualifiedName, imp)
      {
        SuffixIsSegmentSuffix(c.qualifiedName, imp);
      }
      PrefixIsOwnFile(c.qualifiedName, ctx.callerFile);
      if ctx.callerPackage.Some? {
        PrefixIsPackage(c.qualifiedName, ctx.callerPackage.value);
      }
    }
  }

  /** What the comments of the tiers describe: matches by segments, the caller's own file, its own package. */
  function Intended<T>(candidates: seq<Candidate<T>>, ctx: Context): Resolution<Candidate<T>> {
    ResolveBy(candidates, BySegments(ctx), ByOwnFile(ctx), ByOwnPackage(ctx))
  }

  /** The policy's answer is not the one its comments describe if and only if a stray candidate misleads the
      import tier, or the file tier when no import matches alone, or the package tier when no candidate of
      the caller's file is alone either. */
  lemma PolicyIsPrecise<T>(candidates: seq<Candidate<T>>, ctx: Context)
    requires |candidates| >= 2
    ensures Resolve(candidates, ctx) != Intended(candidates, ctx) <==>
              || Misled(candidates, ByImport(ctx), BySegments(ctx))
              || (NoneAlone(candidates, ByImport(ctx))
                  && (Misled(candidates, ByFile(ctx), ByOwnFile(ctx))
                      || (NoneAlone(candidates, ByFile(ctx)) && Misled(candidates, ByPackage(ctx), ByOwnPackage(ctx)))))
  {
    TestsAreStricter(candidates, ctx);
    hide Only, Misled, Stricter, NoneAlone;
    TierAgrees(candidates, ByImport(ctx), BySegments(ctx));
    TierAgrees(candidates, ByFile(ctx), ByOwnFile(ctx));
    TierAgrees(candidates, ByPackage(ctx), ByOwnPackage(ctx));
    OnlyNone(candidates, ByImport(ctx));
    OnlyNone(candidates, ByFile(ctx));
  }

  // ----- Wrong answers -----

  /** Two symbols of one name. */
  function Pair(first: string, second: string): seq<Candidate<nat>> {
    [Candidate(0, first), Candidate(1, second)]
  }

  lemma OnlyOfPair(first: string, second: string, test: Test)
    ensures Only(Pair(first, second), test) ==
            if test(first) && !test(second) then Some(Candidate(0, first))
            else if !test(first) && test(second) then Some(Candidate(1, second))
            else None
  {
    var pair := Pair(first, second);
    assert pair[1..] == [Candidate(1, second)] && pair[1..][1..] == [];
    assert Matching(pair[1..], test) == if test(second) then [Candidate(1, second)] else [];
  }

  lemma OneImport(name: string, imp: string, ctx: Context)
    requires ctx.importsInScope == [imp]
    ensures ByImport(ctx)(name) <==> MatchesImport(name, imp)
    ensures BySegments(ctx)(name) <==> MatchesBySegments(name, imp)
  {
    hide MatchesImport, MatchesBySegments;
    assert imp in ctx.importsInScope;
  }

  lemma LexerIsNoMatch()
    ensures !MatchesImport("lexer", "ser") && !MatchesBySegments("lexer", "ser")
  {
    NoSeparatorsNoChange("lexer");
    NoSeparatorsNoChange("ser");
    assert "lexer"[2..][0] != "ser"[0];
    hide SlashColons, SlashDots;
    SuffixIsSegmentSuffix("lexer", "ser");
  }

  lemma NotInFile(name: string, ctx: Context)
    requires name != "" && ctx.callerFile != "" && name[0] != ctx.callerFile[0]
    ensures !ByFile(ctx)(name) && !ByOwnFile(ctx)(name)
  {
    PrefixIsOwnFile(name, ctx.callerFile);
  }

  /** An import of `ser` decides for a symbol `parser`, although `ser` names neither symbol. */
  lemma ImportTierErrs()
    ensures var pair, ctx := Pair("parser", "lexer"), Context(["ser"], "x.rs", None);
            Resolve(pair, ctx) == Decided(pair[0], ImportMatch) && Intended(pair, ctx) == Ambiguous(pair)
  {
    var x, y, ctx := "parser", "lexer", Context(["ser"], "x.rs", None);
    assert x[0] != 'x' && y[0] != 'x' && ctx.callerFile[0] == 'x';
    MatchIgnoresSegments();
    LexerIsNoMatch();
    hide Only, MatchesImport, MatchesBySegments, InScope, ImportMatches, DefinedIn;
    OneImport(x, "ser", ctx);
    OneImport(y, "ser", ctx);
    NotInFile(x, ctx);
    NotInFile(y, ctx);
    OnlyOfPair(x, y, ByImport(ctx));
    OnlyOfPair(x, y, BySegments(ctx));
    OnlyOfPair(x, y, ByOwnFile(ctx));
    OnlyOfPair(x, y, ByOwnPackage(ctx));
  }

  /** A caller in `src/a.py` is sent to the function of `src/a.pyi`. */
  lemma FileTierErrs()
    ensures var pair, ctx := Pair("src/a.pyi::f", "lib/b.py::f"), Context([], "src/a.py", None);
            Resolve(pair, ctx) == Decided(pair[0], SameFileUnique) && Intended(pair, ctx) == Ambiguous(pair)
  {
    var x, y, ctx := "src/a.pyi::f", "lib/b.py::f", Context([], "src/a.py", None);
    OtherFileIsAccepted();
    assert y[0] != ctx.callerFile[0] && !HasPrefix(y, ctx.callerFile);
    PrefixIsOwnFile(y, ctx.callerFile);
    hide Matching, HasPrefix, Only;
    OnlyOfPair(x, y, ByImport(ctx));
    OnlyOfPair(x, y, BySegments(ctx));
    OnlyOfPair(x, y, ByFile(ctx));
    OnlyOfPair(x, y, ByOwnFile(ctx));
    OnlyOfPair(x, y, ByOwnPackage(ctx));
  }

  lemma OtherPackageIsAccepted()
    ensures HasPrefix("pkg_ab::helper", "pkg_a") && !InPackage("pkg_ab::helper", "pkg_a")
  {
    PrefixIsPackage("pkg_ab::helper", "pkg_a");
  }

  /** A caller in the package `pkg_a` is sent to a function of `pkg_ab`. */
  lemma PackageTierErrs()
    ensures var pair, ctx := Pair("pkg_ab::helper", "lib::helper"), Context([], "unrelated/file.rs", Some("pkg_a"));
            Resolve(pair, ctx) == Decided(pair[0], PackageProximity) && Intended(pair, ctx) == Ambiguous(pair)
  {
    var x, y, ctx := "pkg_ab::helper", "lib::helper", Context([], "unrelated/file.rs", Some("pkg_a"));
    OtherPackageIsAccepted();
    assert x[0] != ctx.callerFile[0] && y[0] != ctx.callerFile[0] && y[0] != 'p' && !HasPrefix(y, "pkg_a");
    NotInFile(x, ctx);
    NotInFile(y, ctx);
    PrefixIsPackage(y, "pkg_a");
    hide Matching, HasPrefix, Only, InPackage, DefinedIn;
    OnlyOfPair(x, y, ByImport(ctx));
    OnlyOfPair(x, y, BySegments(ctx));
    OnlyOfPair(x, y, ByFile(ctx));
    OnlyOfPair(x, y, ByOwnFile(ctx));
    OnlyOfPair(x, y, ByPackage(ctx));
    OnlyOfPair(x, y, ByOwnPackage(ctx));
  }
}
