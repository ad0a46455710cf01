/** An edit of a function body that scripts/check_moved_fn_bodies.py does not report: an expression moves
    into the line comment before it. */
module FnExamples {
  import opened Prelude
  import opened RustLexemes
  import opened LexemeShapes
  import opened MultisetSums
  import opened FnBodies
  import opened FnTokens
  import opened NormalForms

  /** A character that starts neither a literal nor a comment. */
  predicate PlainAt(x: string) {
    x != "" && LiteralLen(x) == None && CommentLen(x) == None
  }

  lemma PlainMark(c: char, rest: string)
    requires c == '(' || c == ')' || c == '{' || c == '}' || IsSpace(c)
    ensures PlainAt([c] + rest)
  {
    var x := [c] + rest;
    assert WordLen(x) == 0;
    PrefixedLiteral(x);
    hide LiteralLen, RawLen, Find;
  }

  lemma PlainLetter(c: char, rest: string)
    requires c == 'f' || c == 'n' || c == 'g'
    requires rest != "" && !IsWordChar(rest[0])
    ensures PlainAt([c] + rest) && WordLen([c] + rest) == 1
  {
    var x := [c] + rest;
    assert x[1..] == rest;
    WordBefore("", rest);
    assert "" + rest == rest;
    PrefixedLiteral(x);
    assert x[..1][0] == c;
    hide LiteralLen, RawLen, Find;
  }

  lemma PlainFn(rest: string)
    requires rest != "" && !IsWordChar(rest[0])
    ensures PlainAt("fn" + rest) && WordLen("fn" + rest) == 2 && ("fn" + rest)[..2] == "fn"
  {
    var x := "fn" + rest;
    WordBefore("n", rest);
    assert x[1..] == "n" + rest;
    PrefixedLiteral(x);
    hide LiteralLen, RawLen, Find;
  }

  lemma BodyChar(c: char, rest: string, at: Nesting, next: Nesting)
    requires PlainAt([c] + rest) && c != ';' && at.After(c) == next
    ensures BodyLen([c] + rest, at) == if next.isOpen && next.depth == 0 then 1 else 1 + BodyLen(rest, next)
  {
    var x := [c] + rest;
    assert SkipLen(x) == 0 && x[1..] == rest;
    hide SkipLen;
  }

  /** A bracket or a blank of a body. */
  lemma BodyMark(c: char, rest: string, at: Nesting, next: Nesting)
    requires (c == '(' || c == ')' || c == '{' || c == '}' || IsSpace(c)) && at.After(c) == next
    ensures BodyLen([c] + rest, at) == if next.isOpen && next.depth == 0 then 1 else 1 + BodyLen(rest, next)
  {
    PlainMark(c, rest);
    assert c != ';';
    hide *;
    BodyChar(c, rest, at, next);
  }

  lemma NormalChar(c: char, rest: string, pending: bool, started: bool)
    requires PlainAt([c] + rest)
    ensures Normalised([c] + rest, pending, started) ==
            if IsSpace(c) then Normalised(rest, true, started)
            else (if pending && started then " " else "") + [c] + Normalised(rest, false, true)
  {
    hide LiteralLen, CommentLen, Piece, PieceLen, IsSpace;
    var x := [c] + rest;
    PieceIs(x);
    NormalisedStep(x, pending, started);
    assert x[1..] == rest;
  }

  lemma NormalMark(c: char, rest: string, pending: bool)
    requires c == '(' || c == ')' || c == '{' || c == '}'
    ensures Normalised([c] + rest, pending, true) == (if pending then " " else "") + [c] + Normalised(rest, false, true)
  {
    PlainMark(c, rest);
    assert !IsSpace(c);
    hide *;
    NormalChar(c, rest, pending, true);
  }

  lemma NormalLetter(c: char, rest: string, pending: bool)
    requires c == 'f' || c == 'n' || c == 'g'
    requires rest != "" && !IsWordChar(rest[0])
    ensures Normalised([c] + rest, pending, true) == (if pending then " " else "") + [c] + Normalised(rest, false, true)
  {
    PlainLetter(c, rest);
    assert !IsSpace(c);
    hide *;
    NormalChar(c, rest, pending, true);
  }

  lemma NormalBlank(c: char, rest: string, pending: bool)
    requires IsSpace(c)
    ensures Normalised([c] + rest, pending, true) == Normalised(rest, true, true)
  {
    PlainMark(c, rest);
    hide *;
    NormalChar(c, rest, pending, true);
  }

  // ----- A function around a body -----

  const HEAD := "fn f(){"

  lemma HeadLength(tail: string)
    ensures StartsFunction(HEAD + tail) && FunctionName(HEAD + tail) == "f"
    ensures FunctionLen(HEAD + tail) == 7 + BodyLen(tail, Nesting(1, 0, true))
  {
    HeadWords(tail);
    BodyOpens(tail);
    hide *;
    FunctionFrom(HEAD + tail);
  }

  lemma FunctionFrom(s: string)
    requires WordLen(s) == 2 && s[..2] == "fn" && Spaces(s[2..]) == 1 && WordLen(s[3..]) == 1
    ensures StartsFunction(s) && FunctionName(s) == s[3..][..1]
    ensures FunctionLen(s) == 4 + BodyLen(s[4..], OUTSIDE)
  {
    assert NameAt(s) == 3 && NamedAt(s) == 4;
    hide BodyLen, WordLen, Spaces;
  }

  lemma HeadWords(tail: string)
    ensures var s := HEAD + tail;
            && WordLen(s) == 2 && s[..2] == "fn" && Spaces(s[2..]) == 1
            && WordLen(s[3..]) == 1 && s[3..][..1] == "f" && s[4..] == "(){" + tail
  {
    var s := HEAD + tail;
    assert s == "fn f(){" + tail;
    CharKinds();
    hide *;
    var args := ['('] + (")" + ("{" + tail));
    var name := ['f'] + args;
    assert s == "fn" + ([' '] + name);
    PlainFn([' '] + name);
    assert s[2..] == [' '] + name && s[3..] == name;
    assert s[4..] == args == "(){" + tail;
    OneBlank(name);
    PlainLetter('f', args);
  }

  lemma OneBlank(name: string)
    requires name != "" && !IsSpace(name[0])
    ensures Spaces([' '] + name) == 1
  {
    assert ([' '] + name)[1..] == name && IsSpace(' ');
    hide IsSpace;
  }

  lemma BodyOpens(tail: string)
    ensures BodyLen("(){" + tail, OUTSIDE) == 3 + BodyLen(tail, Nesting(1, 0, true))
  {
    var at, open := Nesting(0, 1, false), Nesting(1, 0, true);
    assert OUTSIDE == Nesting(0, 0, false);
    assert OUTSIDE.After('(') == at && at.After(')') == OUTSIDE && OUTSIDE.After('{') == open;
    hide *;
    var a := ['{'] + tail;
    var b := [')'] + a;
    BodyMark('(', b, OUTSIDE, at);
    BodyMark(')', a, at, OUTSIDE);
    BodyMark('{', tail, OUTSIDE, open);
    assert "(){" + tail == ['('] + b;
  }

  lemma HeadNormal(tail: string)
    ensures Normalise(HEAD + tail) == HEAD + Normalised(tail, false, true)
  {
    HeadIs(tail);
    CharKinds();
    hide *;
    var a := ['{'] + tail;
    var b := [')'] + a;
    var c := ['('] + b;
    var d := ['f'] + c;
    var e := [' '] + d;
    HeadStarts(e);
    assert "fn f(){" + tail == "fn" + e;
    NormalBlank(' ', d, false);
    NormalLetter('f', c, true);
    NormalMark('(', b, false);
    NormalMark(')', a, false);
    NormalMark('{', tail, false);
    HeadSpelt(Normalised(tail, false, true));
  }

  lemma HeadIs(tail: string)
    ensures HEAD == "fn f(){" && Normalise(HEAD + tail) == Normalised(HEAD + tail, false, false)
  {
    hide Normalised;
  }

  lemma HeadSpelt(u: string)
    ensures "fn" + (" " + ['f'] + ("" + ['('] + ("" + [')'] + ("" + ['{'] + u)))) == "fn f(){" + u
  {
  }

  lemma CharKinds()
    ensures IsSpace(' ') && !IsSpace('f') && !IsSpace('(') && !IsSpace(')') && !IsSpace('{')
    ensures !IsSpace('}') && !IsWordChar(' ') && !IsWordChar('(')
  {
  }

  lemma HeadStarts(e: string)
    requires e != "" && e[0] == ' '
    ensures Normalised("fn" + e, false, false) == "fn" + Normalised(e, false, true)
  {
    CharKinds();
    hide *;
    var f := ['n'] + e;
    PlainF(e);
    assert "fn" + e == ['f'] + f;
    NormalChar('f', f, false, false);
    NormalLetter('n', e, false);
    NameSpelt(Normalised(e, false, true));
  }

  lemma PlainF(e: string)
    requires e != "" && !IsWordChar(e[0])
    ensures PlainAt(['f'] + (['n'] + e))
  {
    hide *;
    PlainFn(e);
    assert ['f'] + (['n'] + e) == "fn" + e;
  }

  lemma NameSpelt(u: string)
    ensures "" + ['f'] + ("" + ['n'] + u) == "fn" + u
  {
  }

  // ----- The two bodies -----

  const BEFORE := "//\ng }"
  const AFTER := "// g\n}"

  lemma CommentBefore(text: string, rest: string)
    requires |text| >= 2 && text[0] == '/' && text[1] == '/' && '\n' !in text
    ensures LiteralLen(text + "\n" + rest) == None && CommentLen(text + "\n" + rest) == Some(|text|)
    ensures SkipLen(text + "\n" + rest) == |text|
  {
    var x := text + "\n" + rest;
    SlashIsNoLiteralAt(x);
    assert HasPrefix(x[|text|..], "\n");
    forall j | 0 <= j < |text|
      ensures !HasPrefix(x[j..], "\n")
    {
      assert x[j..][..1][0] == text[j];
    }
    FindFirst(x, "\n", |text|);
    hide Find, LiteralLen;
  }

  lemma LineThenBody(text: string, rest: string, at: Nesting)
    requires |text| >= 2 && text[0] == '/' && text[1] == '/' && '\n' !in text && at.depth > 0
    ensures BodyLen(text + "\n" + rest, at) == |text| + 1 + BodyLen(rest, at)
  {
    var x := text + "\n" + rest;
    CommentBefore(text, rest);
    assert x[|text|..] == ['\n'] + rest;
    assert at.After('\n') == at && IsSpace('\n');
    SkippedBody(x, at);
    hide *;
    BodyMark('\n', rest, at, at);
  }

  lemma SkippedBody(x: string, at: Nesting)
    requires x != "" && SkipLen(x) != 0
    ensures BodyLen(x, at) == SkipLen(x) + BodyLen(x[SkipLen(x)..], at)
  {
    hide SkipLen;
  }

  lemma LineThenNormal(text: string, rest: string)
    requires |text| >= 2 && text[0] == '/' && text[1] == '/' && '\n' !in text && Collapse(text, false, false) == text
    ensures Normalised(text + "\n" + rest, false, true) == text + Normalised(rest, true, true)
  {
    var x := text + "\n" + rest;
    assert x[..|text|] == text && x[|text|..] == ['\n'] + rest && x[0] == text[0];
    CommentBefore(text, rest);
    assert !IsSpace('/') && IsSpace('\n');
    hide *;
    PieceIs(x);
    NormalisedStep(x, false, true);
    NormalBlank('\n', rest, false);
    assert "" + text == text;
  }

  lemma Closing(rest: string)
    ensures BodyLen(['}'] + rest, Nesting(1, 0, true)) == 1
    ensures Normalised("}", true, true) == " }"
  {
    assert Nesting(1, 0, true).After('}') == Nesting(0, 0, true);
    NormalisedNothing();
    hide *;
    BodyMark('}', rest, Nesting(1, 0, true), Nesting(0, 0, true));
    NormalMark('}', "", true);
    assert ['}'] + "" == "}" && " " + ['}'] + "" == " }";
  }

  lemma SlashesAlone()
    ensures Collapse("//", false, false) == "//" && Collapse("// g", false, false) == "// g"
  {
    CollapseSlashes("//", "");
    CollapseSlashes("// g", " g");
    assert " g"[1..] == "g" && "g"[1..] == "";
    assert Collapse("", false, true) == "";
    assert Collapse("g", true, true) == " " + ['g'] + Collapse("", false, true);
  }

  lemma CollapseSlashes(s: string, rest: string)
    requires s == "//" + rest
    ensures Collapse(s, false, false) == "//" + Collapse(rest, false, true)
  {
    assert s[1..] == "/" + rest && ("/" + rest)[1..] == rest && !IsSpace('/');
    hide IsSpace;
  }

  lemma BeforeLength()
    ensures BodyLen(BEFORE + "\n", Nesting(1, 0, true)) == |BEFORE|
  {
    var at := Nesting(1, 0, true);
    var a := ['}'] + "\n";
    var b := [' '] + a;
    assert at.After('g') == at && at.After(' ') == at && IsSpace(' ') && !IsWordChar(' ');
    assert BEFORE + "\n" == "//" + "\n" + (['g'] + b) && |BEFORE| == 6;
    PlainLetter('g', b);
    hide *;
    Closing("\n");
    LineThenBody("//", ['g'] + b, at);
    BodyChar('g', b, at, at);
    BodyMark(' ', a, at, at);
  }

  lemma BeforeNormal()
    ensures Normalised(BEFORE, false, true) == "// g }"
  {
    SlashesAlone();
    CharKinds();
    hide *;
    var b := [' '] + "}";
    BodyTexts();
    Closing("\n");
    LineThenNormal("//", ['g'] + b);
    NormalLetter('g', b, true);
    NormalBlank(' ', "}", false);
    assert "//" + (" " + ['g'] + " }") == "// g }";
  }

  lemma BodyTexts()
    ensures BEFORE == "//" + "\n" + (['g'] + ([' '] + "}")) && AFTER == "// g" + "\n" + "}"
    ensures |BEFORE| == 6 && |AFTER| == 6
  {
  }

  lemma AfterBody()
    ensures BodyLen(AFTER + "\n", Nesting(1, 0, true)) == |AFTER|
    ensures Normalised(AFTER, false, true) == "// g }"
  {
    SlashesAlone();
    assert AFTER + "\n" == "// g" + "\n" + (['}'] + "\n") && AFTER == "// g" + "\n" + "}" && |AFTER| == 6;
    assert "// g" + " }" == "// g }";
    hide *;
    Closing("\n");
    LineThenBody("// g", ['}'] + "\n", Nesting(1, 0, true));
    LineThenNormal("// g", "}");
  }

  // ----- Their tokens -----

  /** How many tokens are left, character by character. */
  function TokensLeft(s: string): nat {
    |Tokens(s, false, true)|
  }

  lemma {:induction false} GapIsNoToken(s: string, pending: bool, started: bool)
    ensures |Tokens(s, pending, started)| == TokensLeft(s)
    decreases |s|
  {
    hide Piece, PieceLen, LiteralLen, IsSpace;
    if s != "" && LiteralLen(s).None? && IsSpace(s[0]) {
      GapIsNoToken(s[1..], true, started);
      GapIsNoToken(s[1..], true, true);
    }
  }

  lemma TokenChar(c: char, rest: string)
    requires PlainAt([c] + rest)
    ensures TokensLeft([c] + rest) == (if IsSpace(c) then 0 else 1) + TokensLeft(rest)
  {
    var x := [c] + rest;
    assert LiteralLen(x) == None && x[1..] == rest;
    PieceIs(x);
    TokensStep(x, false, true);
    GapIsNoToken(rest, true, true);
    hide LiteralLen, CommentLen, Piece, PieceLen, IsSpace, Tokens;
  }

  lemma TokenMark(c: char, rest: string)
    requires c == '(' || c == ')' || c == '{' || c == '}' || IsSpace(c)
    ensures TokensLeft([c] + rest) == (if IsSpace(c) then 0 else 1) + TokensLeft(rest)
  {
    PlainMark(c, rest);
    hide *;
    TokenChar(c, rest);
  }

  lemma TokenLetter(c: char, rest: string)
    requires c == 'f' || c == 'n' || c == 'g'
    requires rest != "" && !IsWordChar(rest[0])
    ensures TokensLeft([c] + rest) == 1 + TokensLeft(rest)
  {
    PlainLetter(c, rest);
    assert !IsSpace(c);
    hide *;
    TokenChar(c, rest);
  }

  lemma LineToken(text: string, rest: string)
    requires |text| >= 2 && text[0] == '/' && text[1] == '/' && '\n' !in text
    ensures TokensLeft(text + "\n" + rest) == 1 + TokensLeft(rest)
  {
    var x := text + "\n" + rest;
    assert x[|text|..] == ['\n'] + rest && x[0] == text[0];
    CommentBefore(text, rest);
    assert !IsSpace('/') && IsSpace('\n');
    PieceIs(x);
    LeftAfter(x);
    hide *;
    TokenMark('\n', rest);
  }

  lemma LeftAfter(x: string)
    requires x != "" && !IsSpace(x[0])
    ensures TokensLeft(x) == 1 + TokensLeft(x[PieceLen(x)..])
  {
    hide Piece, PieceLen, LiteralLen, IsSpace;
  }

  lemma TextTokens(tail: string)
    ensures |TokensOf(HEAD + tail)| == TokensLeft("fn f(){" + tail)
  {
    HeadIs(tail);
    GapIsNoToken(HEAD + tail, false, false);
    hide Tokens, TokensLeft;
  }

  lemma HeadTokens(tail: string)
    ensures |TokensOf(HEAD + tail)| == 6 + TokensLeft(tail)
  {
    TextTokens(tail);
    CharKinds();
    hide *;
    var a := ['{'] + tail;
    var b := [')'] + a;
    var c := ['('] + b;
    var d := ['f'] + c;
    var e := [' '] + d;
    PlainF(e);
    assert "fn f(){" + tail == ['f'] + (['n'] + e);
    TokenChar('f', ['n'] + e);
    TokenLetter('n', e);
    TokenMark(' ', d);
    TokenLetter('f', c);
    TokenMark('(', b);
    TokenMark(')', a);
    TokenMark('{', tail);
  }

  lemma NoTokens()
    ensures TokensLeft("") == 0
  {
  }

  lemma BodyTokens()
    ensures TokensLeft(BEFORE) == 3 && TokensLeft(AFTER) == 2
  {
    CharKinds();
    NoTokens();
    BodyTexts();
    hide *;
    assert "}" == ['}'] + "";
    TokenMark('}', "");
    LineToken("// g", "}");
    TokenMark(' ', "}");
    TokenLetter('g', [' '] + "}");
    LineToken("//", ['g'] + ([' '] + "}"));
  }

  // ----- Nothing is reported -----

  lemma OneFunction(body: string, normal: string)
    requires body != "" && body[|body| - 1] == '}'
    requires BodyLen(body + "\n", Nesting(1, 0, true)) == |body| && Normalised(body, false, true) == normal
    ensures Bodies(HEAD + (body + "\n")) == multiset{("f", HEAD + normal)}
  {
    var s := HEAD + (body + "\n");
    HeadLength(body + "\n");
    HeadNormal(body);
    assert s[|s| - 1] == '\n' && s[|s| - 2] == body[|body| - 1];
    hide BodyLen, Normalised, Bodies, StartsFunction, FunctionLen, FunctionName;
    FunctionChunk(s);
    assert s[..|s| - 1] == HEAD + body;
  }

  /** The expression `g` of the first text is part of a comment in the second: the tokens of the function
      differ, and nothing is reported. */
  lemma ExpressionBecomesComment()
    ensures TokensOf("fn f(){//\ng }") != TokensOf("fn f(){// g\n}")
    ensures Compare(Side(["fn f(){//\ng }\n"]), Side(["fn f(){// g\n}\n"])) == UNCHANGED
  {
    BeforeLength();
    BeforeNormal();
    AfterBody();
    BodyTokens();
    HeadTokens(BEFORE);
    HeadTokens(AFTER);
    hide BodyLen, Normalised, Bodies, TokensOf, TokensLeft;
    assert HEAD + BEFORE == "fn f(){//\ng }" && HEAD + AFTER == "fn f(){// g\n}";
    OneFunction(BEFORE, "// g }");
    OneFunction(AFTER, "// g }");
    var before, after := "fn f(){//\ng }\n", "fn f(){// g\n}\n";
    assert before == HEAD + (BEFORE + "\n") && after == HEAD + (AFTER + "\n");
    SideOfOne(before);
    SideOfOne(after);
    CompareExact(Side([before]), Side([after]));
  }

  lemma SideOfOne(text: string)
    ensures Side([text]) == Bodies(text)
  {
    assert [text][1..] == [];
    assert Sum(Bodies, []) == multiset{};
    hide Bodies;
  }
}
