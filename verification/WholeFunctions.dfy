/** When the scan of scripts/check_moved_fn_bodies.py:195-241 reports a function with its whole text: from its
    first attribute, doc comment or qualifier to the end of its body. */
module WholeFunctions {
  import opened Prelude
  import opened RustLexemes
  import opened FnShapes
  import opened FnBodies
  import opened FnItems

  datatype FnText = FnText(prefix: seq<PrefixItem>, gap: string, name: string, signature: string, body: string)

  /** From `fn` on, with a line break behind the body. */
  function Tail(f: FnText): string {
    "fn" + (f.gap + (f.name + (f.signature + (f.body + "\n"))))
  }

  function Chunk(f: FnText): string {
    RunText(f.prefix) + Tail(f)
  }

  function Whole(f: FnText): (text: string)
    ensures Chunk(f) == text + "\n"
  {
    assert Chunk(f)[|Chunk(f)| - 1] == '\n';
    Chunk(f)[..|Chunk(f)| - 1]
  }

  /** The parts are what they are called. Between `fn` and the name there may be comments, and the name may be any
      text that ends before the signature. */
  predicate Written(f: FnText) {
    && Reads(f.prefix, Tail(f)) && (f.prefix != [] ==> Starts(f.prefix[0]))
    && f.gap != "" && IsGap(f.gap, f.name + (f.signature + (f.body + "\n")))
    && f.name != "" && !IsSpace(f.name[0]) && f.name[0] != '/'
    && f.signature != "" && !IsWordChar(f.signature[0])
    && IsSignature(f.signature, f.body + "\n") && IsBody(f.body, "\n")
  }

  predicate NoBrace(f: FnText)
    requires Written(f)
  {
    !HasBrace(CodeOf(f.signature, f.body + "\n"))
  }

  /** Nothing before `fn` is given up, only blanks stand between `fn` and the name, the name is an ASCII word, and
      the signature has no brace outside literals and comments. */
  predicate Ordinary(f: FnText)
    requires Written(f)
  {
    Kept(f.prefix) && AllBlank(f.gap) && IsWord(f.name) && NoBrace(f)
  }

  // ----- The run before `fn` -----

  lemma ReadsStep(items: seq<PrefixItem>, rest: string)
    requires items != [] && Reads(items, rest)
    ensures ReadsItem(items[0], RunText(items[1..]) + rest) && Reads(items[1..], rest)
    ensures RunText(items) + rest == TextOf(items[0]) + (RunText(items[1..]) + rest)
    ensures |RunText(items)| == |TextOf(items[0])| + |RunText(items[1..])|
  {
    hide ReadsItem, TextOf;
  }

  lemma NoItems(rest: string)
    ensures RunText([]) + rest == rest
  {
  }

  lemma KeepStep(prefix: Option<string>, text: string, rest: string)
    requires text != "" && Keeps(prefix, text, rest)
    ensures Functions(prefix, text + rest) == Functions(Some(Pending(prefix) + text), rest)
  {
    FunctionsStep(prefix, text + rest);
    assert (text + rest)[|text|..] == rest;
    hide Next, Functions;
  }

  function Read(prefix: Option<string>, text: string): Option<string> {
    if text == "" then prefix else Some(Pending(prefix) + text)
  }

  lemma ReadMore(prefix: Option<string>, text: string, more: string)
    requires text != ""
    ensures Read(Some(Pending(prefix) + text), more) == Read(prefix, text + more)
  {
    assert Pending(prefix) + text + more == Pending(prefix) + (text + more) && text + more != "";
    assert more == "" ==> text + more == text;
  }

  lemma {:induction false} RunIsKept(prefix: Option<string>, items: seq<PrefixItem>, rest: string)
    requires Reads(items, rest) && Kept(items) && (prefix.Some? || items == [] || Starts(items[0]))
    ensures Functions(prefix, RunText(items) + rest) == Functions(Read(prefix, RunText(items)), rest)
    decreases |items|
  {
    hide *;
    if items == [] {
      NoItems(rest);
      NothingRead(prefix);
    } else {
      var text, more := TextOf(items[0]), RunText(items[1..]);
      ReadsStep(items, rest);
      KeptRest(items);
      KeepTurn(prefix, items[0], more + rest);
      KeepStep(prefix, text, more + rest);
      RunIsKept(Some(Pending(prefix) + text), items[1..], rest);
      ReadMore(prefix, text, more);
      RunTextStep(items);
    }
  }

  lemma NothingRead(prefix: Option<string>)
    ensures Read(prefix, RunText([])) == prefix
  {
  }

  lemma RunTextStep(items: seq<PrefixItem>)
    requires items != []
    ensures RunText(items) == TextOf(items[0]) + RunText(items[1..])
  {
  }

  lemma KeptRest(items: seq<PrefixItem>)
    requires items != []
    ensures Kept(items) <==> !Drops(items[0]) && Kept(items[1..])
  {
    hide Drops;
    assert items == [items[0]] + items[1..];
  }

  lemma DropStep(prefix: Option<string>, text: string, rest: string)
    requires text != "" && text + rest != ""
    requires var t := Next(prefix, text + rest); t.prefix == None && t.item == None && t.length <= |text|
    ensures var n := Next(prefix, text + rest).length;
            0 < n <= |text| && Functions(prefix, text + rest) == Functions(None, (text + rest)[n..])
  {
    FunctionsStep(prefix, text + rest);
    hide Next, Functions;
  }

  /** An item that makes the scan give up leaves it without a prefix somewhere before `fn`. */
  lemma {:induction false} RunIsDropped(prefix: Option<string>, items: seq<PrefixItem>, rest: string) returns (n: nat)
    requires Reads(items, rest) && !Kept(items) && (prefix.Some? || Starts(items[0]))
    ensures 0 < n <= |RunText(items)|
    ensures n <= |RunText(items) + rest|
    ensures Functions(prefix, RunText(items) + rest) == Functions(None, (RunText(items) + rest)[n..])
    decreases |items|
  {
    EmptyIsKept();
    hide *;
    var text, more := TextOf(items[0]), RunText(items[1..]);
    var s := RunText(items) + rest;
    ReadsStep(items, rest);
    KeptRest(items);
    if Drops(items[0]) {
      DropsAny(prefix, items[0], more + rest);
      DropStep(prefix, text, more + rest);
      n := Next(prefix, s).length;
    } else {
      KeepTurn(prefix, items[0], more + rest);
      KeepStep(prefix, text, more + rest);
      var m := RunIsDropped(Some(Pending(prefix) + text), items[1..], rest);
      n := |text| + m;
      assert s[n..] == (more + rest)[m..];
    }
  }

  lemma EmptyIsKept()
    ensures Kept([])
  {
  }

  // ----- What is not the whole text -----

  lemma {:induction false} CutIsInside(items: seq<Item>, text: string, item: Item) returns (k: nat)
    requires CutFrom(items, text) && item in items
    ensures k <= |text| && HasPrefix(text[k..], item.1)
    decreases |items|
  {
    var j :| 0 <= j <= |text| && HasPrefix(text[j..], items[0].1) && CutFrom(items[1..], text[j..][|items[0].1|..]);
    if item == items[0] {
      k := j;
    } else {
      var m := CutIsInside(items[1..], text[j..][|items[0].1|..], item);
      k := j + |items[0].1| + m;
      assert text[k..] == text[j..][|items[0].1|..][m..];
    }
  }

  lemma ShiftedIsOther(whole: string, n: nat, k: nat, p: string)
    requires whole != "" && whole[|whole| - 1] != '\n' && 0 < n <= |whole + "\n"|
    requires k <= |(whole + "\n")[n..]| && HasPrefix((whole + "\n")[n..][k..], p)
    ensures p != whole
  {
    var s := (whole + "\n")[n..];
    assert s != "" ==> s[|s| - 1] == '\n';
    if p != "" {
      PrefixLast(s[k..], p);
    }
  }

  /** A text cut from behind the start of a function is not the whole of it. */
  lemma LaterIsNotWhole(whole: string, n: nat, item: Item)
    requires whole != "" && whole[|whole| - 1] != '\n' && 0 < n <= |whole + "\n"|
    requires item in Functions(None, (whole + "\n")[n..])
    ensures item.1 != whole
  {
    assert Pending(None) == "";
    hide *;
    var s := (whole + "\n")[n..];
    FunctionsAreCutFromText(None, s);
    assert "" + s == s;
    var k := CutIsInside(Functions(None, s), s, item);
    ShiftedIsOther(whole, n, k, item.1);
  }

  lemma PrefixLast(s: string, p: string)
    requires HasPrefix(s, p) && p != ""
    ensures |p| <= |s| && s[|p| - 1] == p[|p| - 1]
  {
    assert s[..|p|][|p| - 1] == p[|p| - 1];
  }

  // ----- From `fn` on -----

  lemma TailText(f: FnText)
    ensures var rest := f.gap + (f.name + (f.signature + (f.body + "\n")));
            var named := f.name + (f.signature + (f.body + "\n"));
            var typed := f.signature + (f.body + "\n");
            Tail(f) == "fn" + rest && Tail(f)[2..] == rest && Tail(f)[..2] == "fn"
            && Tail(f)[2 + |f.gap|..] == named && rest[|f.gap|..] == named
            && Tail(f)[2 + |f.gap| + |f.name|..] == typed && named[..|f.name|] == f.name && named[|f.name|..] == typed
            && |Tail(f)| == 2 + |f.gap| + |f.name| + |f.signature| + |f.body| + 1
  {
  }

  lemma GapFirst(f: FnText)
    requires Written(f)
    ensures !IsWordChar((f.gap + (f.name + (f.signature + (f.body + "\n"))))[0])
    ensures f.gap != ""
  {
    GapStarts(f.gap, f.name + (f.signature + (f.body + "\n")));
    hide IsWordChar;
  }

  lemma {:induction false} SpacesOfGap(gap: string, rest: string)
    requires IsGap(gap, rest) && rest != "" && !IsSpace(rest[0])
    ensures Spaces(gap + rest) <= |gap|
    ensures AllBlank(gap) <==> Spaces(gap + rest) == |gap|
    ensures !AllBlank(gap) ==> (gap + rest)[Spaces(gap + rest)] == '/'
    decreases |gap|
  {
    hide IsSpace, CommentLen;
    if gap == "" {
      assert gap + rest == rest;
    } else if IsSpace(gap[0]) {
      assert (gap + rest)[1..] == gap[1..] + rest && gap == [gap[0]] + gap[1..];
      BlankFirst(gap, rest);
      SpacesOfGap(gap[1..], rest);
    } else {
      assert (gap + rest)[0] == '/' && gap[0] in gap;
    }
  }

  lemma BlankFirst(gap: string, rest: string)
    requires gap != "" && IsSpace(gap[0]) && IsGap(gap, rest)
    ensures IsGap(gap[1..], rest)
  {
    assert (gap + rest)[0] == gap[0] && !IsSpace('/');
    hide IsSpace, CommentLen;
  }

  lemma NotNamed(f: FnText)
    requires Written(f) && (!AllBlank(f.gap) || !IsWordStart(f.name[0])) && WordLen(Tail(f)) == 2
    ensures !StartsFunction(Tail(f))
  {
    var s, named := Tail(f), f.name + (f.signature + (f.body + "\n"));
    assert named[0] == f.name[0] && !IsWordStart('/');
    assert IsGap(f.gap, named) && !IsSpace(f.name[0]);
    TailText(f);
    hide Written, IsGap, IsSpace, IsWordStart, Tail;
    SpacesOfGap(f.gap, named);
    hide AllBlank, Spaces;
    assert s[NameAt(s)..][0] == (f.gap + named)[Spaces(f.gap + named)];
  }

  lemma WordTurn(prefix: Option<string>, s: string)
    requires s != "" && !IsSpace(s[0]) && !StartsOuterPrefix(s) && !StartsInnerAttribute(s) && SkipLen(s) == 0
    requires WordLen(s) == 2 && s[..2] == "fn" && !StartsFunction(s)
    ensures Next(prefix, s) == Turn(2, None, None)
  {
    hide IsSpace, StartsOuterPrefix, StartsInnerAttribute, SkipLen, WordLen, StartsFunction;
    assert !IsQualifier("fn");
  }

  /** `fn` without a name behind it is passed over like any other word. */
  lemma NamelessTurn(prefix: Option<string>, f: FnText)
    requires Written(f) && (!AllBlank(f.gap) || !IsWordStart(f.name[0]))
    ensures Next(prefix, Tail(f)) == Turn(2, None, None)
  {
    hide *;
    TailText(f);
    GapFirst(f);
    KeywordIsNoLexeme("fn", f.gap + (f.name + (f.signature + (f.body + "\n"))));
    NotNamed(f);
    WordTurn(prefix, Tail(f));
  }

  /** Where the name is read up to, and the name that is reported. */
  lemma NamedTail(f: FnText)
    requires Written(f) && AllBlank(f.gap) && IsWordStart(f.name[0])
    ensures var s := Tail(f);
            && StartsFunction(s) && NameAt(s) == 2 + |f.gap|
            && (IsWord(f.name) ==> NamedAt(s) == 2 + |f.gap| + |f.name| && FunctionName(s) == f.name)
            && (!IsWord(f.name) ==> FunctionName(s) != f.name)
  {
    var s, typed := Tail(f), f.signature + (f.body + "\n");
    var named := f.name + typed;
    TailText(f);
    GapFirst(f);
    KeywordIsNoLexeme("fn", f.gap + named);
    SpacesOfGap(f.gap, named);
    assert NameAt(s) == 2 + |f.gap| && s[NameAt(s)..] == named;
    assert typed[0] == f.signature[0];
    hide Spaces, IsSpace, SkipLen, StartsOuterPrefix, StartsInnerAttribute, IsGap, Written, AllBlank;
    WordCharsAre(f.name);
    hide IsWord;
    if IsWord(f.name) {
      WordFollowed(f.name, typed);
    } else {
      WordEnds(f.name, typed);
    }
  }

  lemma WordEnds(name: string, rest: string)
    requires name != "" && IsWordStart(name[0]) && !IsWord(name)
    ensures 0 < WordLen(name + rest) && (name + rest)[..WordLen(name + rest)] != name
  {
    WordCharsAre(name);
    hide IsWord;
    var c :| c in name && !IsWordChar(c);
    var s := name + rest;
    assert s[0] == name[0];
    var k :| 0 <= k < |name| && name[k] == c;
    assert s[1..][k - 1] == s[k] == c;
    assert WordLen(s) <= k;
  }

  lemma FunctionTurnAt(prefix: Option<string>, s: string)
    requires s != "" && StartsFunction(s) && !IsSpace(s[0]) && !StartsOuterPrefix(s) && !StartsInnerAttribute(s)
    requires SkipLen(s) == 0
    ensures Next(prefix, s) ==
            Turn(FunctionLen(s), None, Some((FunctionName(s), Pending(prefix) + s[..FunctionLen(s)])))
    ensures FunctionLen(s) == NamedAt(s) + BodyLen(s[NamedAt(s)..], OUTSIDE)
  {
    hide IsSpace, StartsOuterPrefix, StartsInnerAttribute, SkipLen, StartsFunction, FunctionName, NamedAt, BodyLen;
  }

  /** How far the turn at `fn` goes. */
  lemma NamedLength(f: FnText)
    requires Written(f) && AllBlank(f.gap) && IsWord(f.name) && StartsFunction(Tail(f))
    requires NamedAt(Tail(f)) == 2 + |f.gap| + |f.name|
    requires FunctionLen(Tail(f)) == NamedAt(Tail(f)) + BodyLen(Tail(f)[NamedAt(Tail(f))..], OUTSIDE)
    ensures FunctionLen(Tail(f)) == |Tail(f)| - 1 <==> NoBrace(f)
    ensures !NoBrace(f) ==> FunctionLen(Tail(f)) < |Tail(f)| - 1
  {
    assert IsSignature(f.signature, f.body + "\n") && IsBody(f.body, "\n") && |f.body| >= 2;
    assert f.signature + f.body + "\n" == f.signature + (f.body + "\n");
    BodyIsFound(f.signature, f.body, "\n");
    assert NoBrace(f) <==> !HasBrace(CodeOf(f.signature, f.body + "\n"));
    hide *;
    TailText(f);
  }

  /** The turn at `fn`, up to the end of the body that the search finds. */
  lemma NamedTurn(prefix: Option<string>, f: FnText)
    requires Written(f) && AllBlank(f.gap) && IsWordStart(f.name[0])
    ensures var s := Tail(f);
            && StartsFunction(s)
            && Next(prefix, s) ==
               Turn(FunctionLen(s), None, Some((FunctionName(s), Pending(prefix) + s[..FunctionLen(s)])))
            && (IsWord(f.name) ==> FunctionName(s) == f.name && (FunctionLen(s) == |s| - 1 <==> NoBrace(f)))
            && (IsWord(f.name) && !NoBrace(f) ==> FunctionLen(s) < |s| - 1)
            && (!IsWord(f.name) ==> FunctionName(s) != f.name)
  {
    hide *;
    var rest := f.gap + (f.name + (f.signature + (f.body + "\n")));
    TailText(f);
    GapFirst(f);
    NamedTail(f);
    KeywordIsNoLexeme("fn", rest);
    FunctionTurnAt(prefix, Tail(f));
    if IsWord(f.name) {
      NamedLength(f);
    }
  }

  // ----- The whole -----

  lemma FirstIs(prefix: Option<string>, s: string)
    requires s != "" && Next(prefix, s).item.Some?
    ensures var t := Next(prefix, s);
            Functions(prefix, s) == [t.item.value] + Functions(t.prefix, s[t.length..])
    ensures Functions(prefix, s)[0] == Next(prefix, s).item.value
  {
    hide Next;
  }

  lemma WholeText(f: FnText)
    requires Written(f)
    ensures Whole(f) != "" && Whole(f)[|Whole(f)| - 1] == '}'
    ensures Chunk(f) == RunText(f.prefix) + Tail(f) == Whole(f) + "\n" && |Tail(f)| > 2
    ensures |Whole(f)| == |RunText(f.prefix)| + |Tail(f)| - 1
    ensures Whole(f) == RunText(f.prefix) + Tail(f)[..|Tail(f)| - 1]
  {
    assert |f.body| >= 2 && f.body[|f.body| - 1] == '}';
    TailEnd(f);
    assert Chunk(f) == RunText(f.prefix) + Tail(f);
    hide *;
    LastCut(RunText(f.prefix), Tail(f), Whole(f));
  }

  lemma TailEnd(f: FnText)
    requires |f.body| >= 2 && f.body[|f.body| - 1] == '}'
    ensures var s := Tail(f); |s| > 2 && s[|s| - 2] == '}'
  {
    var front := "fn" + (f.gap + (f.name + f.signature));
    assert Tail(f) == front + (f.body + "\n");
    hide Tail;
    assert (f.body + "\n")[|f.body| - 1] == '}';
  }

  lemma LastCut(run: string, tail: string, whole: string)
    requires run + tail == whole + "\n" && |tail| > 2 && tail[|tail| - 2] == '}'
    ensures |whole| == |run| + |tail| - 1 && whole == run + tail[..|tail| - 1] && whole[|whole| - 1] == '}'
  {
    assert whole == (whole + "\n")[..|whole|] == (run + tail)[..|whole|];
    assert (run + tail)[|run| + |tail| - 2] == tail[|tail| - 2];
  }

  /** A function that is named is reported as a whole exactly when its whole body is found. */
  lemma NamedItems(f: FnText, prefix: Option<string>)
    requires Written(f) && Pending(prefix) == RunText(f.prefix) && AllBlank(f.gap) && IsWordStart(f.name[0])
    ensures Functions(prefix, Tail(f)) == [(f.name, Whole(f))] <==> IsWord(f.name) && NoBrace(f)
  {
    hide *;
    var s := Tail(f);
    WholeText(f);
    NamedTurn(prefix, f);
    FirstIs(prefix, s);
    var n := FunctionLen(s);
    assert |Pending(prefix) + s[..n]| == |RunText(f.prefix)| + n;
    if n == |s| - 1 {
      LineBreakAlone(f);
      assert [(FunctionName(s), Whole(f))] + [] == [(FunctionName(s), Whole(f))];
    }
  }

  lemma NamelessItems(f: FnText, prefix: Option<string>)
    requires Written(f) && Pending(prefix) == RunText(f.prefix) && (!AllBlank(f.gap) || !IsWordStart(f.name[0]))
    ensures (f.name, Whole(f)) !in Functions(prefix, Tail(f))
  {
    hide *;
    var s, p := Tail(f), |RunText(f.prefix)|;
    WholeText(f);
    NamelessTurn(prefix, f);
    FunctionsStep(prefix, s);
    assert [] + Functions(None, s[2..]) == Functions(None, s[2..]);
    NotLater(f, p + 2, s[2..]);
  }

  /** What is found behind the start of a function is not the function. */
  lemma NotLater(f: FnText, n: nat, rest: string)
    requires Written(f) && 0 < n <= |Chunk(f)| && Chunk(f)[n..] == rest
    ensures (f.name, Whole(f)) !in Functions(None, rest)
  {
    hide *;
    WholeText(f);
    if (f.name, Whole(f)) in Functions(None, rest) {
      LaterIsNotWhole(Whole(f), n, (f.name, Whole(f)));
    }
  }

  /** What the scan finds from `fn` on, with the prefix kept so far. */
  lemma TailItems(f: FnText, prefix: Option<string>)
    requires Written(f) && Pending(prefix) == RunText(f.prefix)
    ensures Functions(prefix, Tail(f)) == [(f.name, Whole(f))] <==> AllBlank(f.gap) && IsWord(f.name) && NoBrace(f)
  {
    assert f.name != "";
    hide *;
    WordCharsAre(f.name);
    if AllBlank(f.gap) && IsWordStart(f.name[0]) {
      NamedItems(f, prefix);
    } else {
      NamelessItems(f, prefix);
      assert (f.name, Whole(f)) in [(f.name, Whole(f))];
    }
  }

  lemma LineBreakAlone(f: FnText)
    requires Written(f)
    ensures Functions(None, Tail(f)[|Tail(f)| - 1..]) == []
  {
    assert Tail(f)[|Tail(f)| - 1..] == "\n";
    LineBreakChunk();
  }

  lemma PendingRead(text: string)
    ensures Pending(Read(None, text)) == text
  {
  }

  /** The scan reports the function under its name with its whole text, and nothing else, if and only if the
      function is ordinary. */
  lemma FunctionIsFound(f: FnText)
    requires Written(f)
    ensures Functions(None, Chunk(f)) == [(f.name, Whole(f))] <==> Ordinary(f)
  {
    assert Reads(f.prefix, Tail(f)) && (f.prefix != [] ==> Starts(f.prefix[0]));
    assert Ordinary(f) <==> Kept(f.prefix) && AllBlank(f.gap) && IsWord(f.name) && NoBrace(f);
    EmptyIsKept();
    hide *;
    WholeText(f);
    if Kept(f.prefix) {
      RunIsKept(None, f.prefix, Tail(f));
      PendingRead(RunText(f.prefix));
      TailItems(f, Read(None, RunText(f.prefix)));
    } else {
      var n := RunIsDropped(None, f.prefix, Tail(f));
      NotLater(f, n, Chunk(f)[n..]);
      assert (f.name, Whole(f)) in [(f.name, Whole(f))];
    }
  }

  // ----- As a chunk -----

  /** The text ends with the brace of a body and a line break. */
  predicate EndsWithBody(s: string) {
    |s| >= 2 && s[|s| - 2] == '}' && s[|s| - 1] == '\n'
  }

  lemma TurnEndsInside(prefix: Option<string>, s: string)
    requires EndsWithBody(s) && Next(prefix, s).length < |s|
    ensures TurnCloses(prefix, s)
  {
    var w := WordLen(s);
    assert !IsSpace('}') && !IsWordChar('}');
    assert w < |s| - 1 by {
      WordStops(s, |s| - 2);
    }
    assert s[w..][|s| - 2 - w] == '}';
    hide Next, IsSpace, WordLen;
  }

  lemma WordStops(s: string, k: nat)
    requires k < |s| && !IsWordChar(s[k])
    ensures WordLen(s) <= k
  {
    assert k > 0 ==> s[1..][k - 1] == s[k];
  }

  lemma KeepCloses(prefix: Option<string>, text: string, rest: string)
    requires text != "" && Keeps(prefix, text, rest) && EndsWithBody(rest)
    ensures EndsWithBody(text + rest)
    ensures Closes(prefix, text + rest) == Closes(Some(Pending(prefix) + text), rest)
  {
    var s := text + rest;
    assert s[|s| - 2] == rest[|rest| - 2] && s[|s| - 1] == rest[|rest| - 1];
    TurnEndsInside(prefix, s);
    assert s[|text|..] == rest;
    hide Next, TurnCloses, IsSpace;
  }

  lemma {:induction false} RunCloses(prefix: Option<string>, items: seq<PrefixItem>, rest: string)
    requires Reads(items, rest) && Kept(items) && (prefix.Some? || items == [] || Starts(items[0])) && EndsWithBody(rest)
    ensures EndsWithBody(RunText(items) + rest)
    ensures Closes(prefix, RunText(items) + rest) == Closes(Read(prefix, RunText(items)), rest)
    decreases |items|
  {
    hide *;
    if items == [] {
      NoItems(rest);
      NothingRead(prefix);
    } else {
      var text, more := TextOf(items[0]), RunText(items[1..]);
      ReadsStep(items, rest);
      KeptRest(items);
      KeepTurn(prefix, items[0], more + rest);
      RunCloses(Some(Pending(prefix) + text), items[1..], rest);
      KeepCloses(prefix, text, more + rest);
      ReadMore(prefix, text, more);
      RunTextStep(items);
    }
  }

  lemma LastTurnCloses(prefix: Option<string>, s: string)
    requires EndsWithBody(s) && Next(prefix, s).length == |s| - 1 && Next(prefix, s).prefix == None
    ensures Closes(prefix, s)
  {
    TurnEndsInside(prefix, s);
    LineBreakChunk();
    assert s[|s| - 1..] == "\n";
    hide Next, TurnCloses, IsSpace;
  }

  lemma TailCloses(f: FnText, prefix: Option<string>)
    requires Written(f) && AllBlank(f.gap) && IsWord(f.name) && NoBrace(f)
    ensures EndsWithBody(Tail(f)) && Closes(prefix, Tail(f))
  {
    assert |f.body| >= 2 && f.body[|f.body| - 1] == '}';
    WordCharsAre(f.name);
    TailEnd(f);
    assert EndsWithBody(Tail(f)) by {
      WholeText(f);
      assert Tail(f)[|Tail(f)| - 1] == '\n';
    }
    hide *;
    NamedTurn(prefix, f);
    LastTurnCloses(prefix, Tail(f));
  }

  /** An ordinary function is a well-delimited chunk, which holds it alone. */
  lemma OrdinaryChunk(f: FnText)
    requires Written(f) && Ordinary(f)
    ensures WellDelimited(Chunk(f)) && Functions(None, Chunk(f)) == [(f.name, Whole(f))]
  {
    FunctionIsFound(f);
    assert Reads(f.prefix, Tail(f)) && (f.prefix != [] ==> Starts(f.prefix[0]));
    TailCloses(f, Read(None, RunText(f.prefix)));
    RunCloses(None, f.prefix, Tail(f));
    hide Closes, Functions, Written, Ordinary;
  }
}
