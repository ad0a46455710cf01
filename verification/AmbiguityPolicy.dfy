/** The evidence policy of src/ambiguity_policy.rs for a name with several candidate symbols. */
module AmbiguityPolicy {
  import opened Prelude

  datatype Evidence =
    | UniqueGlobal | ReceiverBound | ImportMatch | ReceiverLocalBinding | ReceiverReturnType
    | SameFileUnique | PackageProximity | MacroExpansion | MacroReceiverType | CfgSelected

  function ConfidenceFor(e: Evidence): real {
    match e
    case UniqueGlobal => 0.95
    case ReceiverBound => 0.93
    case ImportMatch => 0.9
    case ReceiverLocalBinding => 0.87
    case ReceiverReturnType => 0.85
    case SameFileUnique => 0.85
    case PackageProximity => 0.7
    case MacroExpansion => 0.85
    case MacroReceiverType => 0.8
    case CfgSelected => 0.85
  }

  datatype Resolution<T> =
    | Resolved(target: T, evidence: Evidence, confidence: real)
    | Ambiguous(candidates: seq<T>)
    | NotFound

  /** A candidate and the qualified name it is matched by. */
  datatype Candidate<T> = Candidate(target: T, qualifiedName: string)

  datatype Context = Context(importsInScope: seq<string>, callerFile: string, callerPackage: Option<string>)

  // ----- Matching -----

  /** `str::replace("::", "/")` */
  function SlashColons(s: string): string {
    if s == "" then ""
    else if At(s, 0, ':') && At(s, 1, ':') then "/" + SlashColons(s[2..])
    else [s[0]] + SlashColons(s[1..])
  }

  /** `str::replace('.', "/")` */
  function SlashDots(s: string): string {
    if s == "" then "" else [if s[0] == '.' then '/' else s[0]] + SlashDots(s[1..])
  }

  /** Each `::` becomes a slash, from the left; all else stays. */
  lemma {:induction false} ColonsBecomeSlash(a: string, b: string)
    requires ':' !in a
    ensures SlashColons(a + ("::" + b)) == a + ("/" + SlashColons(b))
  {
    var s := a + ("::" + b);
    if a == "" {
      assert s == "::" + b && s[2..] == b;
    } else {
      assert s[0] == a[0] && a[0] in a && s[1..] == a[1..] + ("::" + b);
      ColonsBecomeSlash(a[1..], b);
      assert a + ("/" + SlashColons(b)) == [a[0]] + (a[1..] + ("/" + SlashColons(b)));
    }
  }

  /** A single colon stays. */
  lemma {:induction false} SingleColonStays(a: string, b: string)
    requires ':' !in a && (b == "" || b[0] != ':')
    ensures SlashColons(a + (":" + b)) == a + (":" + SlashColons(b))
  {
    var s := a + (":" + b);
    if a == "" {
      assert s == ":" + b && s[1..] == b;
    } else {
      assert s[0] == a[0] && a[0] in a && s[1..] == a[1..] + (":" + b);
      SingleColonStays(a[1..], b);
      assert a + (":" + SlashColons(b)) == [a[0]] + (a[1..] + (":" + SlashColons(b)));
    }
  }

  lemma {:induction false} DotsBecomeSlashes(s: string)
    ensures |SlashDots(s)| == |s|
    ensures forall k :: 0 <= k < |s| ==> SlashDots(s)[k] == if s[k] == '.' then '/' else s[k]
  {
    if s != "" {
      DotsBecomeSlashes(s[1..]);
    }
  }

  predicate EndsWith(s: string, tail: string) {
    |tail| <= |s| && s[|s| - |tail|..] == tail
  }

  /** A candidate and one import. */
  predicate MatchesImport(qualifiedName: string, imp: string) {
    var name, path := SlashColons(qualifiedName), SlashDots(SlashColons(imp));
    EndsWith(name, path) || EndsWith(path, name)
  }

  predicate ImportMatches(qualifiedName: string, imports: seq<string>) {
    exists imp :: imp in imports && MatchesImport(qualifiedName, imp)
  }

  type Test = string -> bool

  function ByImport(ctx: Context): Test {
    name => ImportMatches(name, ctx.importsInScope)
  }

  function ByFile(ctx: Context): Test {
    name => HasPrefix(name, ctx.callerFile)
  }

  function ByPackage(ctx: Context): Test {
    name => ctx.callerPackage.Some? && HasPrefix(name, ctx.callerPackage.value)
  }

  function Matching<T>(candidates: seq<Candidate<T>>, test: Test): seq<Candidate<T>> {
    if candidates == [] then []
    else (if test(candidates[0].qualifiedName) then [candidates[0]] else []) + Matching(candidates[1..], test)
  }

  /** The candidate that alone passes the test, if one does. */
  function Only<T>(candidates: seq<Candidate<T>>, test: Test): Option<Candidate<T>> {
    var m := Matching(candidates, test);
    if |m| == 1 then Some(m[0]) else None
  }

  method UniqueMatch<T>(candidates: seq<Candidate<T>>, test: Test) returns (found: Option<Candidate<T>>)
    ensures found == Only(candidates, test)
  {
    found := None;
    for k := 0 to |candidates|
      invariant Matching(candidates, test) ==
                (if found.Some? then [found.value] else []) + Matching(candidates[k..], test)
    {
      assert candidates[k..][1..] == candidates[k + 1..];
      var c := candidates[k];
      if test(c.qualifiedName) {
        if found.Some? {
          assert |Matching(candidates, test)| >= 2;
          return None;
        }
        found := Some(c);
      }
    }
  }

  // ----- The policy -----

  function Decided<T>(target: T, e: Evidence): Resolution<T> {
    Resolved(target, e, ConfidenceFor(e))
  }

  function Resolve<T>(candidates: seq<Candidate<T>>, ctx: Context): Resolution<Candidate<T>> {
    if candidates == [] then NotFound
    else if |candidates| == 1 then Decided(candidates[0], UniqueGlobal)
    else
      match Only(candidates, ByImport(ctx))
      case Some(c) => Decided(c, ImportMatch)
      case None =>
        match Only(candidates, ByFile(ctx))
        case Some(c) => Decided(c, SameFileUnique)
        case None =>
          match Only(candidates, ByPackage(ctx))
          case Some(c) => Decided(c, PackageProximity)
          case None => Ambiguous(candidates)
  }

  /** No candidate is not found, and a single one is the answer whatever else is known. */
  lemma FewCandidates<T>(candidates: seq<Candidate<T>>, ctx: Context)
    ensures Resolve(candidates, ctx) == NotFound <==> |candidates| == 0
    ensures |candidates| == 1 ==> Resolve(candidates, ctx) == Resolved(candidates[0], UniqueGlobal, 0.95)
    ensures |candidates| >= 2 && Resolve(candidates, ctx).Resolved? ==>
              Resolve(candidates, ctx).evidence != UniqueGlobal && Resolve(candidates, ctx).confidence <= 0.9
  {
    hide Only;
  }

  /** Stronger evidence gives more confidence. */
  lemma ConfidenceIsMonotone()
    ensures 1.0 > ConfidenceFor(UniqueGlobal) > ConfidenceFor(ImportMatch) > ConfidenceFor(SameFileUnique) >
            ConfidenceFor(PackageProximity) > 0.0
    ensures ConfidenceFor(UniqueGlobal) > ConfidenceFor(ReceiverBound) > ConfidenceFor(ImportMatch)
    ensures ConfidenceFor(ImportMatch) > ConfidenceFor(ReceiverLocalBinding) > ConfidenceFor(ReceiverReturnType)
    ensures ConfidenceFor(MacroReceiverType) < ConfidenceFor(MacroExpansion) < ConfidenceFor(ReceiverLocalBinding)
    ensures ConfidenceFor(CfgSelected) == ConfidenceFor(SameFileUnique) < ConfidenceFor(ImportMatch)
  {
  }

  // ----- The order of the candidates does not matter -----

  lemma {:induction false} MatchingMembers<T>(candidates: seq<Candidate<T>>, test: Test, c: Candidate<T>)
    ensures multiset(Matching(candidates, test))[c] == if test(c.qualifiedName) then multiset(candidates)[c] else 0
  {
    if candidates != [] {
      MatchingMembers(candidates[1..], test, c);
      assert candidates == [candidates[0]] + candidates[1..];
    }
  }

  lemma OnlyOfPermutation<T(!new)>(a: seq<Candidate<T>>, b: seq<Candidate<T>>, test: Test)
    requires multiset(a) == multiset(b)
    ensures Only(a, test) == Only(b, test)
  {
    var x, y := Matching(a, test), Matching(b, test);
    var mx, my := multiset(x), multiset(y);
    forall c: Candidate<T>
      ensures mx[c] == my[c]
    {
      MatchingMembers(a, test, c);
      MatchingMembers(b, test, c);
    }
    assert mx == my;
    assert |x| == |mx| && |y| == |my|;
    if |x| == 1 {
      assert x[0] in my;
    }
  }

  /** Equal up to the order in which an ambiguous answer lists its candidates. */
  predicate SameOutcome<T(==)>(r: Resolution<T>, s: Resolution<T>) {
    if r.Ambiguous? && s.Ambiguous? then multiset(r.candidates) == multiset(s.candidates) else r == s
  }

  /** Whatever order the candidates come in, the variant, target, evidence and confidence are the same. */
  lemma OrderInvariance<T(!new)>(a: seq<Candidate<T>>, b: seq<Candidate<T>>, ctx: Context)
    requires multiset(a) == multiset(b)
    ensures SameOutcome(Resolve(a, ctx), Resolve(b, ctx))
  {
    hide Only;
    assert |a| == |multiset(a)| == |multiset(b)| == |b|;
    if |a| == 1 {
      assert a[0] in multiset(b);
    }
    OnlyOfPermutation(a, b, ByImport(ctx));
    OnlyOfPermutation(a, b, ByFile(ctx));
    OnlyOfPermutation(a, b, ByPackage(ctx));
  }

  // ----- What an answer means -----

  /** The candidate at position `k` passes and no other position does. */
  predicate AloneAt<T>(candidates: seq<Candidate<T>>, test: Test, k: nat) {
    && k < |candidates| && test(candidates[k].qualifiedName)
    && forall j :: 0 <= j < |candidates| && j != k ==> !test(candidates[j].qualifiedName)
  }

  /** Exactly one position holds a candidate that passes, and it is this candidate. */
  predicate Alone<T(==)>(candidates: seq<Candidate<T>>, test: Test, c: Candidate<T>) {
    exists k :: 0 <= k < |candidates| && candidates[k] == c && AloneAt(candidates, test, k)
  }

  predicate NoneAlone<T(==)>(candidates: seq<Candidate<T>>, test: Test) {
    forall c :: c in candidates ==> !Alone(candidates, test, c)
  }

  lemma {:induction false} NothingMatches<T>(candidates: seq<Candidate<T>>, test: Test)
    ensures Matching(candidates, test) == [] <==> forall k :: 0 <= k < |candidates| ==> !test(candidates[k].qualifiedName)
  {
    if candidates != [] {
      NothingMatches(candidates[1..], test);
    }
  }

  lemma {:induction false} AloneIsMatched<T>(candidates: seq<Candidate<T>>, test: Test, k: nat)
    requires AloneAt(candidates, test, k)
    ensures Matching(candidates, test) == [candidates[k]]
  {
    var rest := candidates[1..];
    if k == 0 {
      NothingMatches(rest, test);
    } else {
      AloneIsMatched(rest, test, k - 1);
    }
  }

  lemma {:induction false} MatchedIsAlone<T>(candidates: seq<Candidate<T>>, test: Test) returns (k: nat)
    requires |Matching(candidates, test)| == 1
    ensures AloneAt(candidates, test, k) && Matching(candidates, test) == [candidates[k]]
  {
    var rest := candidates[1..];
    if test(candidates[0].qualifiedName) {
      NothingMatches(rest, test);
      k := 0;
    } else {
      k := MatchedIsAlone(rest, test);
      k := k + 1;
    }
  }

  lemma OnlyIsAlone<T>(candidates: seq<Candidate<T>>, test: Test, c: Candidate<T>)
    ensures Only(candidates, test) == Some(c) <==> Alone(candidates, test, c)
  {
    hide AloneAt, Matching;
    if Only(candidates, test) == Some(c) {
      var k := MatchedIsAlone(candidates, test);
    }
    if Alone(candidates, test, c) {
      var k :| 0 <= k < |candidates| && candidates[k] == c && AloneAt(candidates, test, k);
      AloneIsMatched(candidates, test, k);
    }
  }

  lemma OnlyNone<T>(candidates: seq<Candidate<T>>, test: Test)
    ensures Only(candidates, test) == None <==> NoneAlone(candidates, test)
  {
    if Only(candidates, test).Some? {
      OnlyIsAlone(candidates, test, Only(candidates, test).value);
    }
    forall c | c in candidates
      ensures Only(candidates, test) == Some(c) <==> Alone(candidates, test, c)
    {
      OnlyIsAlone(candidates, test, c);
    }
  }

  /** With two or more candidates, the answer names the strongest tier that one candidate alone
      satisfies, and that candidate; it is ambiguous exactly when no tier has one. */
  lemma StrongestTierDecides<T>(candidates: seq<Candidate<T>>, ctx: Context, c: Candidate<T>)
    requires |candidates| >= 2
    ensures var r := Resolve(candidates, ctx);
            var byImport, byFile, byPackage := ByImport(ctx), ByFile(ctx), ByPackage(ctx);
            && (r == Decided(c, ImportMatch) <==> Alone(candidates, byImport, c))
            && (r == Decided(c, SameFileUnique) <==> NoneAlone(candidates, byImport) && Alone(candidates, byFile, c))
            && (r == Decided(c, PackageProximity) <==>
                NoneAlone(candidates, byImport) && NoneAlone(candidates, byFile) && Alone(candidates, byPackage, c))
            && (r == Ambiguous(candidates) <==>
                NoneAlone(candidates, byImport) && NoneAlone(candidates, byFile) && NoneAlone(candidates, byPackage))
            && (r.Resolved? ==> r.evidence in {ImportMatch, SameFileUnique, PackageProximity}
                                && r.confidence == ConfidenceFor(r.evidence))
  {
    OnlyIsAlone(candidates, ByImport(ctx), c);
    OnlyIsAlone(candidates, ByFile(ctx), c);
    OnlyIsAlone(candidates, ByPackage(ctx), c);
    OnlyNone(candidates, ByImport(ctx));
    OnlyNone(candidates, ByFile(ctx));
    OnlyNone(candidates, ByPackage(ctx));
    hide Only, Alone, NoneAlone;
  }
}
