/** The two-pass evidence gathering of src/call_evidence.rs on top of the ambiguity policy. */
module CallEvidence {
  import opened Prelude
  import opened Decimal
  import opened AmbiguityPolicy

  // ----- Names -----

  /** Index of the last `#`, None when there is none. */
  function LastHash(s: string): (r: Option<nat>)
    ensures r.Some? ==> r.value < |s| && s[r.value] == '#' && '#' !in s[r.value + 1..]
    ensures r.None? ==> '#' !in s
    decreases |s|
  {
    if s == "" then None
    else if s[|s| - 1] == '#' then Some(|s| - 1)
    else
      var r := LastHash(s[..|s| - 1]);
      assert s == s[..|s| - 1] + [s[|s| - 1]];
      match r
      case None => None
      case Some(k) => assert s[k + 1..] == s[..|s| - 1][k + 1..] + [s[|s| - 1]]; Some(k)
  }

  lemma {:induction false} LastHashIs(s: string, k: nat)
    requires k < |s| && s[k] == '#' && '#' !in s[k + 1..]
    ensures LastHash(s) == Some(k)
    decreases |s|
  {
    if k < |s| - 1 {
      assert s[|s| - 1] in s[k + 1..];
      var front := s[..|s| - 1];
      assert s[k + 1..] == front[k + 1..] + [s[|s| - 1]];
      LastHashIs(front, k);
    }
  }

  predicate AllDigits(s: string) {
    s != "" && forall c :: c in s ==> IsDigit(c)
  }

  /** The name without a trailing `#<digits>`. */
  function StripSeqSuffix(qn: string): string {
    match LastHash(qn)
    case None => qn
    case Some(k) => if AllDigits(qn[k + 1..]) then qn[..k] else qn
  }

  /** Stripping removes exactly a final `#` and digits, when there is one. */
  lemma StripRemovesSuffix(head: string, digits: string)
    requires digits != "" && forall c :: c in digits ==> '0' <= c <= '9'
    ensures StripSeqSuffix(head + "#" + digits) == head
  {
    LastHashIs(head + "#" + digits, |head|);
  }

  /** The name ends in `#` and digits. */
  predicate HasSeqSuffix(qn: string) {
    exists k :: 0 <= k < |qn| - 1 && qn[k] == '#' && forall j :: k < j < |qn| ==> '0' <= qn[j] <= '9'
  }

  /** Every other name is unchanged, and only those. */
  lemma StripChangesOnlySuffixed(qn: string)
    ensures StripSeqSuffix(qn) == qn <==> !HasSeqSuffix(qn)
  {
    if StripSeqSuffix(qn) != qn {
      ChangedIsSuffixed(qn);
    }
    if HasSeqSuffix(qn) {
      SuffixedIsChanged(qn);
    }
  }

  lemma ChangedIsSuffixed(qn: string)
    requires StripSeqSuffix(qn) != qn
    ensures HasSeqSuffix(qn)
  {
    var k := LastHash(qn).value;
    var digits := qn[k + 1..];
    assert forall j :: k < j < |qn| ==> qn[j] == digits[j - k - 1] && digits[j - k - 1] in digits;
    hide LastHash, StripSeqSuffix;
    assert forall j :: k < j < |qn| ==> '0' <= qn[j] <= '9';
  }

  lemma SuffixedIsChanged(qn: string)
    requires HasSeqSuffix(qn)
    ensures StripSeqSuffix(qn) != qn
  {
    var k :| 0 <= k < |qn| - 1 && qn[k] == '#' && forall j :: k < j < |qn| ==> '0' <= qn[j] <= '9';
    hide LastHash, StripSeqSuffix;
    assert qn == qn[..k] + "#" + qn[k + 1..];
    StripRemovesSuffix(qn[..k], qn[k + 1..]);
  }

  /** Offset after the last `::`, 0 when there is none. */
  function AfterLastColons(s: string): (n: nat)
    ensures n <= |s|
    decreases |s|
  {
    if |s| < 2 then 0
    else if s[|s| - 2] == ':' && s[|s| - 1] == ':' then |s|
    else AfterLastColons(s[..|s| - 1])
  }

  function BareName(qn: string): string {
    StripSeqSuffix(qn[AfterLastColons(qn)..])
  }

  predicate HasColons(s: string) {
    exists k :: 0 <= k < |s| - 1 && s[k] == ':' && s[k + 1] == ':'
  }

  lemma {:induction false} NoColonsAfter(s: string, n: nat)
    requires n <= |s| && (n == 0 || (n >= 2 && s[n - 2] == ':' && s[n - 1] == ':'))
    requires forall k :: (if n == 0 then 0 else n - 1) <= k < |s| - 1 ==> !(s[k] == ':' && s[k + 1] == ':')
    ensures AfterLastColons(s) == n
    decreases |s|
  {
    if |s| > n {
      NoColonsAfter(s[..|s| - 1], n);
    }
  }

  /** The bare name is what follows the last `::`, without its sequence number, or all of it when there is no
      `::`. */
  lemma BareNameIsLast(head: string, name: string)
    requires !HasColons(":" + name)
    ensures BareName(head + "::" + name) == BareName(name) == StripSeqSuffix(name)
  {
    var s, n := head + "::" + name, |head| + 2;
    var t := ":" + name;
    forall k | n - 1 <= k < |s| - 1
      ensures !(s[k] == ':' && s[k + 1] == ':')
    {
      assert t[k - (n - 1)] == s[k] && t[k - (n - 1) + 1] == s[k + 1];
    }
    forall k | 0 <= k < |name| - 1
      ensures !(name[k] == ':' && name[k + 1] == ':')
    {
      assert t[k + 1] == name[k] && t[k + 2] == name[k + 1];
    }
    hide HasColons, StripSeqSuffix;
    NoColonsAfter(s, n);
    NoColonsAfter(name, 0);
    assert s[n..] == name && name[0..] == name;
  }

  // ----- The two passes -----

  /** What the resolver knows of a call site and of the language. */
  datatype CallSite = CallSite(importsHint: seq<string>, callerFile: string, packageOf: string -> Option<string>)

  /** How a symbol of type T is read. */
  datatype Symbols<!T> = Symbols(qnOf: T -> string, fileOf: T -> string)

  function PackageKey<T>(s: Symbols<T>, ev: CallSite, c: T): string {
    match ev.packageOf(s.fileOf(c))
    case Some(pkg) => pkg + "::" + BareName(s.qnOf(c))
    case None => BareName(s.qnOf(c))
  }

  function Keyed<T>(candidates: seq<T>, key: T -> string): (keyed: seq<Candidate<T>>)
    ensures |keyed| == |candidates|
    ensures forall k :: 0 <= k < |candidates| ==> keyed[k] == Candidate(candidates[k], key(candidates[k]))
  {
    if candidates == [] then [] else [Candidate(candidates[0], key(candidates[0]))] + Keyed(candidates[1..], key)
  }

  function Targets<T>(keyed: seq<Candidate<T>>): seq<T> {
    if keyed == [] then [] else [keyed[0].target] + Targets(keyed[1..])
  }

  /** The answer without the match keys. */
  function Unkeyed<T>(r: Resolution<Candidate<T>>): Resolution<T> {
    match r
    case Resolved(c, e, confidence) => Resolved(c.target, e, confidence)
    case Ambiguous(cs) => Ambiguous(Targets(cs))
    case NotFound => NotFound
  }

  /** Pass 1 looks at imports only: the caller's file and package are kept from the policy. */
  function PackageContext(ev: CallSite): Context {
    Context(ev.importsHint, "", None)
  }

  function TryPackagePass<T>(candidates: seq<T>, s: Symbols<T>, ev: CallSite): Option<Resolution<T>> {
    var r := Resolve(Keyed(candidates, c => PackageKey(s, ev, c)), PackageContext(ev));
    if r.Resolved? then Some(Unkeyed(r)) else None
  }

  function FilePass<T>(candidates: seq<T>, s: Symbols<T>, ev: CallSite): Resolution<T> {
    Unkeyed(Resolve(Keyed(candidates, c => StripSeqSuffix(s.qnOf(c))),
                    Context(ev.importsHint, ev.callerFile, ev.packageOf(ev.callerFile))))
  }

  function ResolveTwoPass<T>(candidates: seq<T>, s: Symbols<T>, ev: CallSite): Resolution<T> {
    match TryPackagePass(candidates, s, ev)
    case Some(r) => r
    case None => FilePass(candidates, s, ev)
  }

  // ----- What the first pass can do -----

  /** A test that treats two positions alike singles out no candidate by passing both of them. */
  lemma TwoPassSoNoneAlone<T>(keyed: seq<Candidate<T>>, test: Test, i: nat, j: nat)
    requires i < j < |keyed| && (test(keyed[i].qualifiedName) <==> test(keyed[j].qualifiedName))
    ensures forall k :: AloneAt(keyed, test, k) ==> !test(keyed[i].qualifiedName)
    ensures test(keyed[i].qualifiedName) ==> NoneAlone(keyed, test)
  {
  }

  lemma AllAlikeSoNoneAlone<T>(keyed: seq<Candidate<T>>, test: Test, name: string)
    requires |keyed| >= 2 && forall j :: 0 <= j < |keyed| ==> keyed[j].qualifiedName == name
    ensures NoneAlone(keyed, test)
  {
    assert !test(name) ==> forall k :: !AloneAt(keyed, test, k);
    TwoPassSoNoneAlone(keyed, test, 0, 1);
  }

  /** The file tier of pass 1 passes everyone, so it never singles anyone out of two or more. */
  lemma EveryoneIsInNoFile<T>(keyed: seq<Candidate<T>>, ev: CallSite)
    requires |keyed| >= 2
    ensures NoneAlone(keyed, ByFile(PackageContext(ev))) && NoneAlone(keyed, ByPackage(PackageContext(ev)))
  {
    TwoPassSoNoneAlone(keyed, ByFile(PackageContext(ev)), 0, 1);
  }

  /** On two or more candidates the first pass answers exactly when one of them alone has a package key
      that matches an import, and then by import match. */
  lemma PackagePassIsImportMatch<T>(candidates: seq<T>, s: Symbols<T>, ev: CallSite)
    requires |candidates| >= 2
    ensures var keyed := Keyed(candidates, c => PackageKey(s, ev, c));
            var byImport := ByImport(PackageContext(ev));
            var r := TryPackagePass(candidates, s, ev);
            && (r.None? <==> NoneAlone(keyed, byImport))
            && (forall c :: c in keyed && Alone(keyed, byImport, c) ==> r == Some(Decided(c.target, ImportMatch)))
  {
    hide PackageKey, Alone;
    var keyed := Keyed(candidates, c => PackageKey(s, ev, c));
    var ctx := PackageContext(ev);
    EveryoneIsInNoFile(keyed, ev);
    forall c | c in keyed
      ensures Resolve(keyed, ctx) == Decided(c, ImportMatch) <==> Alone(keyed, ByImport(ctx), c)
    {
      StrongestTierDecides(keyed, ctx, c);
    }
    StrongestTierDecides(keyed, ctx, keyed[0]);
  }

  /** Without any package and with one shared bare name the first pass sees two equal keys, so it
      answers nothing. */
  lemma NoPackageNoAnswer<T>(candidates: seq<T>, s: Symbols<T>, ev: CallSite, name: string)
    requires |candidates| >= 2
    requires forall c :: c in candidates ==> ev.packageOf(s.fileOf(c)).None? && BareName(s.qnOf(c)) == name
    ensures TryPackagePass(candidates, s, ev) == None
  {
    hide Resolve;
    var keyed := Keyed(candidates, c => PackageKey(s, ev, c));
    var test := ByImport(PackageContext(ev));
    forall j | 0 <= j < |keyed|
      ensures keyed[j].qualifiedName == name
    {
      assert candidates[j] in candidates;
    }
    AllAlikeSoNoneAlone(keyed, test, name);
    PackagePassIsImportMatch(candidates, s, ev);
  }

  /** The key under which a candidate's package, if it has one, is matched against the imports. */
  predicate MatchesUnder(s: string, package: Option<string>, imports: seq<string>) {
    var key := if package.Some? then package.value + "::" + BareName(s) else BareName(s);
    exists imp :: imp in imports && MatchesImport(key, imp)
  }

  predicate OnlyMatch<T>(candidates: seq<T>, s: Symbols<T>, ev: CallSite, k: nat) {
    && k < |candidates| && MatchesUnder(s.qnOf(candidates[k]), ev.packageOf(s.fileOf(candidates[k])), ev.importsHint)
    && forall j :: 0 <= j < |candidates| && j != k ==>
         !MatchesUnder(s.qnOf(candidates[j]), ev.packageOf(s.fileOf(candidates[j])), ev.importsHint)
  }

  lemma MatchIsKeyMatch<T>(candidates: seq<T>, s: Symbols<T>, ev: CallSite, k: nat)
    requires k < |candidates|
    ensures var keyed := Keyed(candidates, c => PackageKey(s, ev, c));
            ByImport(PackageContext(ev))(keyed[k].qualifiedName) <==>
            MatchesUnder(s.qnOf(candidates[k]), ev.packageOf(s.fileOf(candidates[k])), ev.importsHint)
  {
    hide MatchesImport, BareName;
  }

  lemma OnlyMatchIsAlone<T>(candidates: seq<T>, s: Symbols<T>, ev: CallSite, k: nat)
    ensures var keyed := Keyed(candidates, c => PackageKey(s, ev, c));
            OnlyMatch(candidates, s, ev, k) <==> AloneAt(keyed, ByImport(PackageContext(ev)), k)
  {
    hide MatchesUnder, PackageKey, ImportMatches;
    forall j | 0 <= j < |candidates|
      ensures var keyed := Keyed(candidates, c => PackageKey(s, ev, c));
              ByImport(PackageContext(ev))(keyed[j].qualifiedName) <==>
              MatchesUnder(s.qnOf(candidates[j]), ev.packageOf(s.fileOf(candidates[j])), ev.importsHint)
    {
      MatchIsKeyMatch(candidates, s, ev, j);
    }
  }

  /** Of two or more candidates, with any packages, the one whose package and bare name alone match an import is
      the answer, by import match. When none does, the answer is that of the policy on the names without sequence
      numbers, with the caller's file and package. */
  lemma TwoPassAnswers<T>(candidates: seq<T>, s: Symbols<T>, ev: CallSite)
    requires |candidates| >= 2
    ensures forall k: nat :: OnlyMatch(candidates, s, ev, k) ==>
              ResolveTwoPass(candidates, s, ev) == Resolved(candidates[k], ImportMatch, 0.9)
    ensures (forall k: nat :: !OnlyMatch(candidates, s, ev, k)) ==>
              ResolveTwoPass(candidates, s, ev) ==
              Unkeyed(Resolve(Keyed(candidates, c => StripSeqSuffix(s.qnOf(c))),
                              Context(ev.importsHint, ev.callerFile, ev.packageOf(ev.callerFile))))
  {
    hide Resolve, PackageKey, MatchesUnder, AloneAt, Unkeyed;
    var keyed, test := Keyed(candidates, c => PackageKey(s, ev, c)), ByImport(PackageContext(ev));
    PackagePassIsImportMatch(candidates, s, ev);
    forall k: nat
      ensures OnlyMatch(candidates, s, ev, k) <==> AloneAt(keyed, test, k)
    {
      OnlyMatchIsAlone(candidates, s, ev, k);
    }
    forall k: nat | k < |candidates| && OnlyMatch(candidates, s, ev, k)
      ensures ResolveTwoPass(candidates, s, ev) == Resolved(candidates[k], ImportMatch, 0.9)
    {
      assert AloneAt(keyed, test, k);
      AloneHere(keyed, test, k);
      assert keyed[k] in keyed;
    }
  }

  lemma AloneHere<T>(keyed: seq<Candidate<T>>, test: Test, k: nat)
    requires AloneAt(keyed, test, k)
    ensures k < |keyed| && Alone(keyed, test, keyed[k])
  {
  }

  /** What the answer says about the candidates themselves. */
  lemma UnkeyedAnswers<T>(candidates: seq<T>, key: T -> string, k: nat, e: Evidence)
    requires k < |candidates|
    ensures Unkeyed(Decided(Keyed(candidates, key)[k], e)) == Decided(candidates[k], e)
    ensures Unkeyed(Ambiguous(Keyed(candidates, key))) == Ambiguous(candidates)
  {
    TargetsOfKeyed(candidates, key);
  }

  lemma {:induction false} TargetsOfKeyed<T>(candidates: seq<T>, key: T -> string)
    ensures Targets(Keyed(candidates, key)) == candidates
  {
    if candidates != [] {
      TargetsOfKeyed(candidates[1..], key);
    }
  }

  /** For a language without packages the two passes are one: the policy on the names without their
      sequence numbers. */
  lemma TwoPassIsOnePass<T>(candidates: seq<T>, s: Symbols<T>, ev: CallSite, name: string)
    requires |candidates| >= 2
    requires forall f :: ev.packageOf(f) == None
    requires forall c :: c in candidates ==> BareName(s.qnOf(c)) == name
    ensures ResolveTwoPass(candidates, s, ev) ==
            Unkeyed(Resolve(Keyed(candidates, c => StripSeqSuffix(s.qnOf(c))),
                            Context(ev.importsHint, ev.callerFile, None)))
  {
    hide Resolve, Unkeyed;
    NoPackageNoAnswer(candidates, s, ev, name);
  }
}
