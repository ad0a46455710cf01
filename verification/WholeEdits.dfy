/** Edits of whole functions: what scripts/check_moved_fn_bodies.py reports of ordinary ones, and changes of
    others that it does not report. */
module WholeEdits {
  import opened Prelude
  import opened RustLexemes
  import opened LexemeShapes
  import opened MultisetSums
  import opened FnShapes
  import opened FnBodies
  import opened FnTokens
  import opened FnEdits
  import opened FnItems
  import opened WholeFunctions

  /** An edit of an ordinary function, attributes, signature or body, wherever all chunks end up, that leaves its
      line comments as they were is reported if and only if it changes the name or a token. */
  lemma OrdinaryEditIsReported(before: seq<seq<string>>, after: seq<seq<string>>, rest: seq<string>, f: FnText, g: FnText)
    requires forall c, i :: c in before && i in c ==> WellDelimited(i)
    requires forall c, i :: c in after && i in c ==> WellDelimited(i)
    requires multiset(Chunks(before)) == multiset([Chunk(f)] + rest)
    requires multiset(Chunks(after)) == multiset([Chunk(g)] + rest)
    requires Written(f) && Written(g) && Ordinary(f) && Ordinary(g)
    requires Tight(TokensOf(Whole(f))) && Tight(TokensOf(Whole(g)))
    requires LineComments(TokensOf(Whole(f))) == LineComments(TokensOf(Whole(g)))
    ensures Compare(Side(Texts(before)), Side(Texts(after))) == UNCHANGED <==>
            f.name == g.name && TokensOf(Whole(f)) == TokensOf(Whole(g))
  {
    hide *;
    OrdinaryChunk(f);
    OrdinaryChunk(g);
    FunctionEditIsReported(before, after, rest, Chunk(f), Chunk(g), (f.name, Whole(f)), (g.name, Whole(g)));
  }

  // ----- Text without functions -----

  predicate NoFn(s: string) {
    forall k :: 0 <= k < |s| - 1 ==> !(s[k] == 'f' && s[k + 1] == 'n')
  }

  lemma NoFnTurn(prefix: Option<string>, s: string)
    requires s != "" && NoFn(s)
    ensures Next(prefix, s).item == None
  {
    NotAFunction(s);
    hide StartsFunction, SkipLen, WordLen, IsSpace, StartsOuterPrefix, StartsInnerAttribute, NoFn;
  }

  lemma NotAFunction(s: string)
    requires NoFn(s)
    ensures !StartsFunction(s)
  {
    var w := s[..WordLen(s)];
    assert |w| == 2 ==> s[0] == w[0] && s[1] == w[1];
    hide WordLen;
  }

  lemma {:induction false} NoFnNoFunctions(prefix: Option<string>, s: string)
    requires NoFn(s)
    ensures Functions(prefix, s) == []
    decreases |s|
  {
    hide Next;
    if s != "" {
      var t := Next(prefix, s);
      NoFnTurn(prefix, s);
      assert forall k :: 0 <= k < |s[t.length..]| ==> s[t.length..][k] == s[t.length + k];
      NoFnNoFunctions(t.prefix, s[t.length..]);
    }
  }

  // ----- A brace in the signature -----

  lemma NameBounds(s: string, name: string, typed: string)
    requires s == "fn" + (" " + (name + typed)) && WordLen(s) == 2 && Spaces(" " + (name + typed)) == 1
    requires name != "" && WordLen(name + typed) == |name|
    ensures StartsFunction(s) && FunctionName(s) == name && NamedAt(s) == 3 + |name| && s[3 + |name|..] == typed
  {
    assert s[..2] == "fn" && s[2..] == " " + (name + typed) && s[3..] == name + typed;
    assert s[3 + |name|..] == typed && (name + typed)[..|name|] == name;
    hide WordLen, Spaces;
  }

  lemma HeadText(name: string, front: string, group: string, rest: string)
    ensures var head, typed := "fn " + (name + (front + group)), front + (group + rest);
            && head + rest == "fn" + (" " + (name + typed)) && front + group + rest == typed
            && (head + rest)[..|head|] == head && |head| == 3 + |name| + |front| + |group|
            && (front != "" ==> typed != "" && typed[0] == front[0])
  {
  }

  lemma NamesStart(name: string)
    requires IsWord(name)
    ensures !IsWordChar(' ') && AllBlank(" ") && name != "" && IsWordStart(name[0]) && !IsSpace(name[0])
    ensures (forall c :: c in name ==> IsWordChar(c)) && Pending(None) == ""
  {
    WordCharsAre(name);
    hide IsWord;
  }

  /** `fn`, a name, and a signature up to the end of its first brace group: the scan takes it for the whole
      function, whatever text follows. */
  lemma BraceEndsFunction(name: string, front: string, group: string, rest: string)
    requires IsWord(name) && front != "" && !IsWordChar(front[0])
    requires IsSignature(front, group + rest) && IsBody(group, rest) && !HasBrace(CodeOf(front, group + rest))
    ensures var head := "fn " + (name + (front + group));
            Next(None, head + rest) == Turn(|head|, None, Some((name, head)))
  {
    hide *;
    var head, typed := "fn " + (name + (front + group)), front + (group + rest);
    var s := head + rest;
    NamesStart(name);
    HeadText(name, front, group, rest);
    KeywordIsNoLexeme("fn", " " + (name + typed));
    assert (name + typed)[0] == name[0] && |" "| == 1;
    SpacesBefore(" ", name + typed);
    WordFollowed(name, typed);
    NameBounds(s, name, typed);
    BodyIsFound(front, group, rest);
    FunctionTurnAt(None, s);
    assert "" + head == head;
  }

  lemma BraceItems(name: string, front: string, group: string, rest: string)
    requires IsWord(name) && front != "" && !IsWordChar(front[0]) && NoFn(rest)
    requires IsSignature(front, group + rest) && IsBody(group, rest) && !HasBrace(CodeOf(front, group + rest))
    ensures var head := "fn " + (name + (front + group)); Functions(None, head + rest) == [(name, head)]
  {
    hide *;
    var head := "fn " + (name + (front + group));
    BraceEndsFunction(name, front, group, rest);
    FunctionsStep(None, head + rest);
    assert (head + rest)[|head|..] == rest;
    NoFnNoFunctions(None, rest);
  }

  /** What stands behind a brace group in the signature, the body included, may be any text without `fn`: no
      change of it is reported. */
  lemma BodyBehindBraceIsUnseen(name: string, front: string, group: string, rest: string, other: string)
    requires IsWord(name) && front != "" && !IsWordChar(front[0]) && NoFn(rest) && NoFn(other)
    requires IsSignature(front, group + rest) && IsBody(group, rest) && !HasBrace(CodeOf(front, group + rest))
    requires IsSignature(front, group + other) && IsBody(group, other) && !HasBrace(CodeOf(front, group + other))
    ensures var head := "fn " + (name + (front + group));
            Compare(Side([head + rest]), Side([head + other])) == UNCHANGED
  {
    hide *;
    var head := "fn " + (name + (front + group));
    BraceItems(name, front, group, rest);
    BraceItems(name, front, group, other);
    SameItemsSameSide(head + rest, head + other);
  }

  lemma SameItemsSameSide(before: string, after: string)
    requires Functions(None, before) == Functions(None, after)
    ensures Compare(Side([before]), Side([after])) == UNCHANGED
  {
    hide Functions;
    assert [before][1..] == [] && [after][1..] == [];
    assert Bodies(before) == Bodies(after);
    assert Sum(Bodies, []) == multiset{};
    hide Bodies, Compare;
    CompareExact(Side([before]), Side([after]));
  }

  const FRONT := "(x:[u8;"
  const GROUP := "{4}"

  lemma FrontIsQuiet()
    ensures (forall c :: c in FRONT ==> Quiet(c)) && !HasBrace(FRONT) && !IsWordChar(FRONT[0])
    ensures Balanced(FRONT, '{', '}', 0) && SemicolonsInside(FRONT, 0)
  {
    assert FRONT[1..] == "x:[u8;" && "x:[u8;"[1..] == ":[u8;" && ":[u8;"[1..] == "[u8;";
    assert "[u8;"[1..] == "u8;" && "u8;"[1..] == "8;" && "8;"[1..] == ";" && ";"[1..] == "";
    assert Balanced("[u8;", '{', '}', 0);
    assert SemicolonsInside("u8;", 2);
    assert SemicolonsInside("[u8;", 1);
  }

  lemma GroupIsBody(rest: string)
    ensures IsBody(GROUP, rest)
  {
    assert GROUP[1..2] == "4" && "4"[1..] == "" && Balanced("4", '{', '}', 0);
    QuietCuts("4", "}" + rest);
    hide Cuts, CodeOf;
  }

  lemma FrontIsSignature(rest: string)
    ensures FRONT != "" && !IsWordChar(FRONT[0]) && IsSignature(FRONT, GROUP + rest)
    ensures !HasBrace(CodeOf(FRONT, GROUP + rest))
  {
    FrontIsQuiet();
    hide Cuts, CodeOf, Quiet, IsWordChar, HasBrace, Balanced, SemicolonsInside;
    assert FRONT != "";
    QuietCuts(FRONT, GROUP + rest);
  }

  lemma BracedText(rest: string)
    ensures "fn f(x:[u8;{4}" + rest == "fn " + ("f" + (FRONT + GROUP)) + rest && IsWord("f")
  {
  }

  /** A change of the body of `fn f(x:[u8;{4}])`, which is not reported. */
  lemma BraceInSignature()
    ensures Compare(Side(["fn f(x:[u8;{4}" + "]){g()}"]), Side(["fn f(x:[u8;{4}" + "]){h()}"])) == UNCHANGED
  {
    var rest, other := "]){g()}", "]){h()}";
    assert NoFn(rest) && NoFn(other);
    hide *;
    BracedText(rest);
    BracedText(other);
    FrontIsSignature(rest);
    FrontIsSignature(other);
    GroupIsBody(rest);
    GroupIsBody(other);
    BodyBehindBraceIsUnseen("f", FRONT, GROUP, rest, other);
  }

  // ----- A raw ABI -----

  /** An ABI that is no plain string makes the scan forget what it has read. */
  lemma AbiDropsPrefix(lead: seq<PrefixItem>, abi: string, rest: string)
    requires lead != [] && Starts(lead[0]) && Kept(lead) && Reads(lead, abi + rest)
    requires abi != "" && abi[0] != '"' && LiteralLen(abi + rest) == Some(|abi|)
    ensures Functions(None, RunText(lead) + (abi + rest)) == Functions(None, rest)
  {
    hide *;
    var s := abi + rest;
    RunIsKept(None, lead, s);
    RunIsRead(lead, s);
    AbiTurn(RunText(lead), abi, rest);
    FunctionsStep(Some(RunText(lead)), s);
    assert s[|abi|..] == rest;
    assert [] + Functions(None, rest) == Functions(None, rest);
  }

  lemma RunIsRead(lead: seq<PrefixItem>, rest: string)
    requires lead != [] && Starts(lead[0]) && Kept(lead) && Reads(lead, rest)
    ensures Read(None, RunText(lead)) == Some(RunText(lead))
  {
    ReadsStep(lead, rest);
    KeepTurn(None, lead[0], RunText(lead[1..]) + rest);
    hide TextOf, Keeps, Reads, ReadsItem, Drops;
    assert "" + RunText(lead) == RunText(lead);
  }

  /** Whatever stands before such an ABI, no change of it is reported. */
  lemma PrefixBeforeAbiIsUnseen(lead: seq<PrefixItem>, other: seq<PrefixItem>, abi: string, rest: string)
    requires lead != [] && Starts(lead[0]) && Kept(lead) && Reads(lead, abi + rest)
    requires other != [] && Starts(other[0]) && Kept(other) && Reads(other, abi + rest)
    requires abi != "" && abi[0] != '"' && LiteralLen(abi + rest) == Some(|abi|)
    ensures Compare(Side([RunText(lead) + (abi + rest)]), Side([RunText(other) + (abi + rest)])) == UNCHANGED
  {
    hide *;
    AbiDropsPrefix(lead, abi, rest);
    AbiDropsPrefix(other, abi, rest);
    SameItemsSameSide(RunText(lead) + (abi + rest), RunText(other) + (abi + rest));
  }

  /** A qualifier and a blank before other items. */
  function Qualified(word: string, items: seq<PrefixItem>): seq<PrefixItem> {
    [Qualifier(word), Blank(' ')] + items
  }

  lemma QualifiedParts(word: string, items: seq<PrefixItem>)
    ensures var all, more := Qualified(word, items), [Blank(' ')] + items;
            && all != [] && all[0] == Qualifier(word) && all[1..] == more
            && more != [] && more[0] == Blank(' ') && more[1..] == items
            && RunText(more) == " " + RunText(items) && RunText(all) == word + (" " + RunText(items))
            && Starts(all[0]) && !Drops(all[0]) && !Drops(more[0])
  {
    var all, more := Qualified(word, items), [Blank(' ')] + items;
    assert all[1..] == more && more[1..] == items;
    RunTextStep(all);
    RunTextStep(more);
    hide RunText;
  }

  lemma ReadsFrom(items: seq<PrefixItem>, rest: string)
    requires items != [] && ReadsItem(items[0], RunText(items[1..]) + rest) && Reads(items[1..], rest)
    ensures Reads(items, rest)
  {
    hide ReadsItem, RunText;
  }

  /** The parts by name: `more` is the blank and the other items. */
  lemma ReadsBoth(all: seq<PrefixItem>, more: seq<PrefixItem>, items: seq<PrefixItem>, rest: string, after: string)
    requires all != [] && all[1..] == more && more != [] && more[1..] == items && more[0] == Blank(' ')
    requires Reads(items, rest) && Kept(items) && !Drops(all[0]) && !Drops(more[0])
    requires RunText(items) + rest == after && RunText(more) + rest == " " + after && ReadsItem(all[0], " " + after)
    ensures Reads(all, rest) && Kept(all)
  {
    assert ReadsItem(Blank(' '), after) by {
      assert IsSpace(' ');
    }
    hide *;
    KeptRest(more);
    KeptRest(all);
    ReadsFrom(more, rest);
    ReadsFrom(all, rest);
  }

  lemma BlankBefore(text: string, rest: string)
    ensures " " + text + rest == " " + (text + rest)
  {
  }

  lemma QualifiedReads(word: string, items: seq<PrefixItem>, rest: string)
    requires word in QUALIFIERS && Reads(items, rest) && Kept(items)
    requires var t := RunText(items) + rest; t != "" && !IsSpace(t[0]) && t[0] != '('
    ensures var all := Qualified(word, items);
            && all != [] && Starts(all[0]) && Kept(all) && Reads(all, rest)
            && RunText(all) == word + (" " + RunText(items))
  {
    hide *;
    QualifiedParts(word, items);
    QualifierReads(word, RunText(items) + rest);
    BlankBefore(RunText(items), rest);
    ReadsBoth(Qualified(word, items), [Blank(' ')] + items, items, rest, RunText(items) + rest);
  }

  lemma QualifierReads(word: string, after: string)
    requires word in QUALIFIERS && after != "" && !IsSpace(after[0]) && after[0] != '('
    ensures ReadsItem(Qualifier(word), " " + after)
  {
    assert !IsWordChar(' ') && AllBlank(" ");
    hide IsSpace, IsWordChar;
    SpacesBefore(" ", after);
    hide AllBlank, Spaces;
  }

  const RAW_ABI := "r\"C\""

  lemma RawAbiIsUnclosed()
    ensures RawClose(0) == "\"" && Unclosed("C", 0)
  {
    assert RawClose(0) == "\"";
    assert ("C" + RawClose(0))[0..][0] == 'C';
  }

  lemma RawAbiIsRead(rest: string)
    ensures LiteralLen(RAW_ABI + rest) == Some(|RAW_ABI|)
  {
    RawAbiIsUnclosed();
    assert RAW_ABI + rest == "r" + (seq(0, _ => '#') + "\"" + "C" + "\"" + rest) && |RAW_ABI| == 4;
    hide *;
    RawLiteralIsRead("r", 0, "C", rest);
  }

  lemma Keywords()
    ensures "extern" in QUALIFIERS && "pub" in QUALIFIERS && !IsSpace('r') && !IsSpace('e')
  {
  }

  lemma ExternRun(rest: string)
    requires rest != "" && rest[0] == 'r'
    ensures var one := Qualified("extern", []);
            one != [] && Starts(one[0]) && Kept(one) && Reads(one, rest) && RunText(one) == "extern "
  {
    assert Kept([]) && Reads([], rest);
    hide *;
    Keywords();
    NoItems(rest);
    NoText();
    QualifiedReads("extern", [], rest);
    assert "extern" + (" " + "") == "extern ";
  }

  lemma PubExternRun(rest: string)
    requires rest != "" && rest[0] == 'r'
    ensures var two := Qualified("pub", Qualified("extern", []));
            two != [] && Starts(two[0]) && Kept(two) && Reads(two, rest) && RunText(two) == "pub extern "
  {
    hide *;
    Keywords();
    ExternRun(rest);
    assert ("extern " + rest)[0] == 'e';
    QualifiedReads("pub", Qualified("extern", []), rest);
    assert "pub" + (" " + "extern ") == "pub extern ";
  }

  /** The removal of `pub` from `pub extern r"C" fn f(){}`, which is not reported. */
  lemma RawAbiHidesPub()
    ensures Compare(Side(["pub extern " + (RAW_ABI + " fn f(){}")]), Side(["extern " + (RAW_ABI + " fn f(){}")])) == UNCHANGED
  {
    assert RAW_ABI != "" && RAW_ABI[0] == 'r';
    hide *;
    var fn := " fn f(){}";
    var one := Qualified("extern", []);
    RawAbiIsRead(fn);
    ExternRun(RAW_ABI + fn);
    PubExternRun(RAW_ABI + fn);
    PrefixBeforeAbiIsUnseen(Qualified("pub", one), one, RAW_ABI, fn);
  }

  lemma NoText()
    ensures RunText([]) == ""
  {
  }
}
