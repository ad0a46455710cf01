/** Where the body of a function ends (scripts/check_moved_fn_bodies.py:122-167): a signature, a body in braces
    and any text behind it, and when the search for the end of the body finds it. */
module FnShapes {
  import opened Prelude
  import opened RustLexemes

  // ----- Code characters -----

  /** With `rest` behind the text, no literal or comment that starts in the text reaches into `rest`. */
  predicate Cuts(s: string, rest: string)
    decreases |s|
  {
    s == ""
    || (var k := SkipLen(s + rest);
        k <= |s| && Cuts(if k != 0 then s[k..] else s[1..], rest))
  }

  /** The characters of the text outside literals and comments. */
  function CodeOf(s: string, rest: string): string
    requires Cuts(s, rest)
    decreases |s|
  {
    if s == "" then ""
    else
      var k := SkipLen(s + rest);
      if k != 0 then CodeOf(s[k..], rest) else [s[0]] + CodeOf(s[1..], rest)
  }

  lemma CutStep(s: string, rest: string)
    requires s != "" && Cuts(s, rest)
    ensures var k := SkipLen(s + rest);
            && k <= |s| && (s + rest)[0] == s[0] && (s + rest)[1..] == s[1..] + rest && (s + rest)[k..] == s[k..] + rest
            && (k != 0 ==> Cuts(s[k..], rest) && CodeOf(s, rest) == CodeOf(s[k..], rest))
            && (k == 0 ==> Cuts(s[1..], rest) && CodeOf(s, rest) == [s[0]] + CodeOf(s[1..], rest))
  {
    CutsUnfold(s, rest);
    hide *;
    SplitText(s, rest, SkipLen(s + rest));
  }

  lemma CutsUnfold(s: string, rest: string)
    requires s != "" && Cuts(s, rest)
    ensures var k := SkipLen(s + rest);
            && k <= |s|
            && (k != 0 ==> Cuts(s[k..], rest) && CodeOf(s, rest) == CodeOf(s[k..], rest))
            && (k == 0 ==> Cuts(s[1..], rest) && CodeOf(s, rest) == [s[0]] + CodeOf(s[1..], rest))
  {
    hide SkipLen;
    var k := SkipLen(s + rest);
    if k != 0 {
      assert Cuts(s[k..], rest);
    } else {
      assert Cuts(s[1..], rest);
    }
  }

  lemma SplitText(s: string, rest: string, k: nat)
    requires 0 < |s| && k <= |s|
    ensures (s + rest)[0] == s[0] && (s + rest)[1..] == s[1..] + rest && (s + rest)[k..] == s[k..] + rest
  {
  }

  lemma NoCode(rest: string)
    ensures Cuts("", rest) && CodeOf("", rest) == ""
  {
  }

  /** A character that can start neither a literal nor a comment, whatever stands behind it. */
  predicate Quiet(c: char) {
    c != '"' && c != '\'' && c != '/' && c != 'r' && c != 'b' && c != 'c'
  }

  lemma QuietIsCode(c: char, rest: string)
    requires Quiet(c)
    ensures SkipLen([c] + rest) == 0
  {
    var s := [c] + rest;
    var w := s[..WordLen(s)];
    assert w != "" ==> w[0] == c;
    hide WordLen, RawLen, StringLen, CharLen, Find, BlockLen;
  }

  lemma {:induction false} QuietCuts(s: string, rest: string)
    requires forall c :: c in s ==> Quiet(c)
    ensures Cuts(s, rest) && CodeOf(s, rest) == s
  {
    hide SkipLen, Quiet;
    if s != "" {
      assert s + rest == [s[0]] + (s[1..] + rest) && s[0] in s;
      QuietIsCode(s[0], s[1..] + rest);
      QuietCuts(s[1..], rest);
    }
  }

  // ----- Brackets -----

  /** The brackets are balanced when `depth` of them are open before the text. */
  predicate Balanced(code: string, open: char, close: char, depth: nat) {
    if code == "" then depth == 0
    else if code[0] == open then Balanced(code[1..], open, close, depth + 1)
    else if code[0] == close then depth > 0 && Balanced(code[1..], open, close, depth - 1)
    else Balanced(code[1..], open, close, depth)
  }

  predicate Opens(c: char) {
    c == '(' || c == '[' || c == '{'
  }

  predicate Shuts(c: char) {
    c == ')' || c == ']' || c == '}'
  }

  function LevelAfter(level: int, c: char): int {
    if Opens(c) then level + 1 else if Shuts(c) then level - 1 else level
  }

  /** No semicolon stands outside all brackets. */
  predicate SemicolonsInside(code: string, level: int) {
    code == "" || ((code[0] == ';' ==> level > 0) && SemicolonsInside(code[1..], LevelAfter(level, code[0])))
  }

  function Level(code: string, level: int): int {
    if code == "" then level else Level(code[1..], LevelAfter(level, code[0]))
  }

  predicate HasBrace(code: string) {
    '{' in code || '}' in code
  }

  // ----- Bracket groups -----

  lemma BracketIsCode(c: char, rest: string)
    requires Opens(c) || Shuts(c)
    ensures SkipLen([c] + rest) == 0
  {
    QuietIsCode(c, rest);
  }

  lemma {:induction false} MatchInside(s: string, rest: string, open: char, close: char, depth: nat)
    requires Cuts(s, rest) && open != close && Balanced(CodeOf(s, rest), open, close, depth)
    ensures MatchLen(s + rest, open, close, depth + 1) == |s| + MatchLen(rest, open, close, 1)
    decreases |s|
  {
    hide SkipLen, Cuts, CodeOf, MatchLen;
    if s == "" {
      NoCode(rest);
      assert s + rest == rest;
    } else {
      CutStep(s, rest);
      MatchStep(s + rest, open, close, depth + 1);
      var k, code := SkipLen(s + rest), CodeOf(s, rest);
      if k != 0 {
        MatchInside(s[k..], rest, open, close, depth);
      } else {
        assert code[0] == s[0] && code[1..] == CodeOf(s[1..], rest);
        if s[0] == open {
          MatchInside(s[1..], rest, open, close, depth + 1);
        } else if s[0] == close {
          MatchInside(s[1..], rest, open, close, depth - 1);
        } else {
          MatchInside(s[1..], rest, open, close, depth);
        }
      }
    }
  }

  lemma GroupText(inner: string, rest: string, open: char, close: char)
    ensures var s, tail := [open] + inner + [close] + rest, [close] + rest;
            s[0] == open && s[1..] == inner + tail && s == [open] + (inner + tail)
            && tail[0] == close && tail[1..] == rest
  {
  }

  /** The group, by its parts: `tail` starts with the closing bracket. */
  lemma MatchGroup(s: string, inner: string, tail: string, open: char, close: char)
    requires s != "" && s[0] == open && SkipLen(s) == 0 && s[1..] == inner + tail
    requires tail != "" && tail[0] == close && SkipLen(tail) == 0 && open != close
    requires Cuts(inner, tail) && Balanced(CodeOf(inner, tail), open, close, 0)
    ensures MatchLen(s, open, close, 0) == |inner| + 2
  {
    hide *;
    MatchStep(s, open, close, 0);
    MatchInside(inner, tail, open, close, 0);
    MatchStep(tail, open, close, 1);
  }

  /** A bracket group ends at the bracket that closes it, whatever comments and literals it holds. */
  lemma GroupIsMatched(inner: string, rest: string, open: char, close: char)
    requires (open == '[' && close == ']') || (open == '(' && close == ')')
    requires Cuts(inner, [close] + rest) && Balanced(CodeOf(inner, [close] + rest), open, close, 0)
    ensures MatchLen([open] + inner + [close] + rest, open, close, 0) == |inner| + 2
  {
    BracketIsCode(open, inner + ([close] + rest));
    BracketIsCode(close, rest);
    GroupText(inner, rest, open, close);
    hide *;
    MatchGroup([open] + inner + [close] + rest, inner, [close] + rest, open, close);
  }

  // ----- Signature and body -----

  /** The search passes over a signature without braces. */
  lemma {:induction false} SignaturePasses(s: string, rest: string, nest: int)
    requires Cuts(s, rest) && !HasBrace(CodeOf(s, rest)) && SemicolonsInside(CodeOf(s, rest), nest)
    ensures BodyLen(s + rest, Nesting(0, nest, false)) ==
            |s| + BodyLen(rest, Nesting(0, Level(CodeOf(s, rest), nest), false))
    decreases |s|
  {
    hide SkipLen, Cuts, CodeOf, BodyLen;
    if s == "" {
      NoCode(rest);
      assert s + rest == rest;
    } else {
      var at, code := Nesting(0, nest, false), CodeOf(s, rest);
      CutStep(s, rest);
      BodyStep(s + rest, at);
      var k := SkipLen(s + rest);
      if k != 0 {
        SignaturePasses(s[k..], rest, nest);
      } else {
        assert code[0] == s[0] && code[1..] == CodeOf(s[1..], rest) && s[0] in code;
        assert at.After(s[0]) == Nesting(0, LevelAfter(nest, s[0]), false);
        SignaturePasses(s[1..], rest, LevelAfter(nest, s[0]));
      }
    }
  }

  /** It passes over what is balanced inside an open body. */
  lemma {:induction false} InsidePasses(s: string, rest: string, nest: int, depth: nat)
    requires Cuts(s, rest) && Balanced(CodeOf(s, rest), '{', '}', depth)
    ensures BodyLen(s + rest, Nesting(depth + 1, nest, true)) == |s| + BodyLen(rest, Nesting(1, nest, true))
    decreases |s|
  {
    hide SkipLen, Cuts, CodeOf, BodyLen;
    if s == "" {
      NoCode(rest);
      assert s + rest == rest;
    } else {
      var at, code := Nesting(depth + 1, nest, true), CodeOf(s, rest);
      CutStep(s, rest);
      BodyStep(s + rest, at);
      var k := SkipLen(s + rest);
      if k != 0 {
        InsidePasses(s[k..], rest, nest, depth);
      } else {
        assert code[0] == s[0] && code[1..] == CodeOf(s[1..], rest);
        InsidePasses(s[1..], rest, nest, at.After(s[0]).depth - 1);
      }
    }
  }

  /** Once a brace is open, it ends in the text that closes all. */
  lemma {:induction false} OpenCloses(s: string, rest: string, nest: int, depth: nat)
    requires depth > 0 && Cuts(s, rest) && Balanced(CodeOf(s, rest), '{', '}', depth)
    ensures BodyLen(s + rest, Nesting(depth, nest, true)) <= |s|
    decreases |s|
  {
    hide SkipLen, Cuts, CodeOf, BodyLen;
    if s == "" {
      NoCode(rest);
      assert false;
    } else {
      var at, code := Nesting(depth, nest, true), CodeOf(s, rest);
      CutStep(s, rest);
      BodyStep(s + rest, at);
      var k := SkipLen(s + rest);
      if k != 0 {
        OpenCloses(s[k..], rest, nest, depth);
      } else {
        assert code[0] == s[0] && code[1..] == CodeOf(s[1..], rest);
        if at.After(s[0]).depth > 0 {
          OpenCloses(s[1..], rest, nest, at.After(s[0]).depth);
        }
      }
    }
  }

  /** A brace in the signature ends the search in the signature. */
  lemma {:induction false} BraceEndsSearch(s: string, rest: string, nest: int)
    requires Cuts(s, rest) && HasBrace(CodeOf(s, rest)) && Balanced(CodeOf(s, rest), '{', '}', 0)
    ensures BodyLen(s + rest, Nesting(0, nest, false)) <= |s|
    decreases |s|
  {
    hide SkipLen, Cuts, CodeOf, BodyLen;
    var at, code := Nesting(0, nest, false), CodeOf(s, rest);
    if s == "" {
      NoCode(rest);
      assert false;
    } else {
      CutStep(s, rest);
      BodyStep(s + rest, at);
      var k := SkipLen(s + rest);
      if k != 0 {
        BraceEndsSearch(s[k..], rest, nest);
      } else {
        assert code[0] == s[0] && code[1..] == CodeOf(s[1..], rest) && code == [code[0]] + code[1..];
        if s[0] == '{' {
          OpenCloses(s[1..], rest, nest, 1);
        } else {
          BraceEndsSearch(s[1..], rest, at.After(s[0]).nest);
        }
      }
    }
  }

  /** A body: braces around what is balanced. */
  predicate IsBody(body: string, rest: string) {
    && |body| >= 2 && body[0] == '{' && body[|body| - 1] == '}'
    && Cuts(body[1..|body| - 1], "}" + rest) && Balanced(CodeOf(body[1..|body| - 1], "}" + rest), '{', '}', 0)
  }

  /** A signature: balanced braces, and no semicolon outside brackets. */
  predicate IsSignature(signature: string, rest: string) {
    && Cuts(signature, rest) && Balanced(CodeOf(signature, rest), '{', '}', 0)
    && SemicolonsInside(CodeOf(signature, rest), 0)
  }

  lemma BraceOpens(s: string, nest: int)
    requires s != "" && s[0] == '{' && SkipLen(s) == 0
    ensures BodyLen(s, Nesting(0, nest, false)) == 1 + BodyLen(s[1..], Nesting(1, nest, true))
  {
    hide SkipLen;
    BodyStep(s, Nesting(0, nest, false));
  }

  lemma BraceShuts(s: string, nest: int)
    requires s != "" && s[0] == '}' && SkipLen(s) == 0
    ensures BodyLen(s, Nesting(1, nest, true)) == 1
  {
    hide SkipLen;
    BodyStep(s, Nesting(1, nest, true));
  }

  lemma BodyByParts(s: string, inner: string, tail: string, nest: int)
    requires s != "" && s[0] == '{' && SkipLen(s) == 0 && s[1..] == inner + tail
    requires tail != "" && tail[0] == '}' && SkipLen(tail) == 0
    requires Cuts(inner, tail) && Balanced(CodeOf(inner, tail), '{', '}', 0)
    ensures BodyLen(s, Nesting(0, nest, false)) == |inner| + 2
  {
    hide *;
    BraceOpens(s, nest);
    InsidePasses(inner, tail, nest, 0);
    BraceShuts(tail, nest);
  }

  lemma BodyText(body: string, rest: string)
    requires |body| >= 2 && body[0] == '{' && body[|body| - 1] == '}'
    ensures var inner, tail := body[1..|body| - 1], "}" + rest;
            (body + rest)[0] == '{' && (body + rest)[1..] == inner + tail && body + rest == ['{'] + (inner + tail)
            && tail[0] == '}' && tail == ['}'] + rest
  {
  }

  lemma BodyAlone(body: string, rest: string, nest: int)
    requires IsBody(body, rest)
    ensures BodyLen(body + rest, Nesting(0, nest, false)) == |body|
  {
    var inner, tail := body[1..|body| - 1], "}" + rest;
    BracketIsCode('{', inner + tail);
    BracketIsCode('}', rest);
    BodyText(body, rest);
    hide SkipLen, Cuts, CodeOf, BodyLen, Balanced;
    BodyByParts(body + rest, inner, tail, nest);
  }

  /** The search finds the end of the body if and only if the signature has no brace outside literals and
      comments, whatever stands behind the body. */
  lemma BodyIsFound(signature: string, body: string, rest: string)
    requires IsSignature(signature, body + rest) && IsBody(body, rest)
    ensures BodyLen(signature + body + rest, OUTSIDE) == |signature| + |body| <==>
            !HasBrace(CodeOf(signature, body + rest))
    ensures HasBrace(CodeOf(signature, body + rest)) ==> BodyLen(signature + body + rest, OUTSIDE) <= |signature|
  {
    assert OUTSIDE == Nesting(0, 0, false) && |body| > 0;
    hide *;
    var code := CodeOf(signature, body + rest);
    assert signature + body + rest == signature + (body + rest);
    SignatureIs(signature, body + rest);
    if HasBrace(code) {
      BraceEndsSearch(signature, body + rest, 0);
    } else {
      SignaturePasses(signature, body + rest, 0);
      BodyAlone(body, rest, Level(code, 0));
    }
  }

  lemma SignatureIs(signature: string, rest: string)
    requires IsSignature(signature, rest)
    ensures Cuts(signature, rest) && Balanced(CodeOf(signature, rest), '{', '}', 0)
    ensures SemicolonsInside(CodeOf(signature, rest), 0)
  {
  }

  /** A declaration whose signature has no brace ends before its semicolon. */
  lemma DeclarationIsFound(signature: string, rest: string)
    requires IsSignature(signature, ";" + rest) && Level(CodeOf(signature, ";" + rest), 0) == 0
    requires !HasBrace(CodeOf(signature, ";" + rest))
    ensures BodyLen(signature + (";" + rest), OUTSIDE) == |signature|
  {
    assert OUTSIDE == Nesting(0, 0, false) && OUTSIDE.EndsDeclaration(';');
    QuietIsCode(';', rest);
    var tail := ";" + rest;
    assert tail == [';'] + rest && tail[0] == ';';
    BodyStep(tail, OUTSIDE);
    hide *;
    SignatureIs(signature, tail);
    SignaturePasses(signature, tail, 0);
  }
}
