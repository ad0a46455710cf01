/** What the normal form of a function text says about it: the tokens it is made of, and when the normal
    form, read again, gives these tokens back. */
module FnTokens {
  import opened Prelude
  import opened RustLexemes
  import opened LexemeShapes
  import opened FnBodies

  /** A literal, a comment with its blanks collapsed, or a single character, and whether blanks stand
      before it. */
  datatype Token = Token(gap: bool, text: string)

  function Tokens(s: string, pending: bool, started: bool): seq<Token>
    decreases |s|
  {
    if s == "" then []
    else if LiteralLen(s).None? && IsSpace(s[0]) then Tokens(s[1..], true, started)
    else [Token(pending && started, Piece(s))] + Tokens(s[PieceLen(s)..], false, true)
  }

  function TokensOf(s: string): seq<Token> {
    Tokens(s, false, false)
  }

  function Spelt(tokens: seq<Token>): string {
    if tokens == [] then "" else (if tokens[0].gap then " " else "") + tokens[0].text + Spelt(tokens[1..])
  }

  /** The normal form spells the tokens out. */
  lemma {:induction false} NormalFormSpells(s: string, pending: bool, started: bool)
    ensures Spelt(Tokens(s, pending, started)) == Normalised(s, pending, started)
    decreases |s|
  {
    hide Piece, PieceLen, LiteralLen;
    if s == "" {
    } else if LiteralLen(s).None? && IsSpace(s[0]) {
      NormalFormSpells(s[1..], true, started);
    } else {
      NormalFormSpells(s[PieceLen(s)..], false, true);
      var head := Token(pending && started, Piece(s));
      assert Tokens(s, pending, started)[1..] == Tokens(s[PieceLen(s)..], false, true);
    }
  }

  predicate IsLineComment(t: Token) {
    HasPrefix(t.text, "//")
  }

  /** A lone quote, blanks, and another quote: with a single blank they would read as a char literal. */
  predicate LooseQuotes(t: Token, next: Token) {
    t.text == "'" && next.gap && At(next.text, 0, '\'')
  }

  /** No line comment is followed by a token, and no lone quote by blanks and a quote. */
  predicate Faithful(tokens: seq<Token>) {
    forall k :: 0 <= k < |tokens| - 1 ==> !IsLineComment(tokens[k]) && !LooseQuotes(tokens[k], tokens[k + 1])
  }

  /** No lone quote is followed by blanks and a quote. */
  predicate Tight(tokens: seq<Token>) {
    forall k :: 0 <= k < |tokens| - 1 ==> !LooseQuotes(tokens[k], tokens[k + 1])
  }

  /** The texts of the line comments, in order. */
  function LineComments(tokens: seq<Token>): seq<string> {
    if tokens == [] then []
    else (if IsLineComment(tokens[0]) then [tokens[0].text] else []) + LineComments(tokens[1..])
  }

  // ----- Literals, read from their own text -----

  lemma {:induction false} QuoteInPrefix(t: string, k: nat, y: string)
    requires QuoteAt(t) == k < |t|
    ensures QuoteAt(t[..k + 1] + y) == k
  {
    var x := t[..k + 1] + y;
    assert x[0] == t[0];
    if t[0] == '"' {
    } else if t[0] != '\\' {
      QuoteInPrefix(t[1..], k - 1, y);
      assert x[1..] == t[1..][..k] + y;
    } else {
      QuoteInPrefix(t[2..], k - 2, y);
      assert x[2..] == t[2..][..k - 1] + y;
    }
  }

  lemma StringInPrefix(s: string, y: string)
    requires s != "" && StringLen(s) < |s|
    ensures StringLen(s[..StringLen(s)] + y) == StringLen(s)
  {
    var n := StringLen(s);
    QuoteInPrefix(s[1..], n - 2, y);
    assert (s[..n] + y)[1..] == s[1..][..n - 1] + y;
  }

  lemma FindStep(t: string, pat: string)
    requires pat != ""
    ensures HasPrefix(t, pat) ==> Find(t, pat) == Some(0) && |pat| <= |t|
    ensures !HasPrefix(t, pat) && t != "" ==> Find(t, pat) == Shift(Find(t[1..], pat), 1)
    ensures !HasPrefix(t, pat) && t == "" ==> Find(t, pat) == None
    ensures Find(t, pat).Some? ==> Find(t, pat).value + |pat| <= |t|
  {
  }

  /** The first occurrence of a pattern is found in any text that goes at least to its end. */
  lemma {:induction false} FindInPrefix(t: string, pat: string, y: string)
    requires pat != "" && Find(t, pat).Some?
    ensures Find(t, pat).value + |pat| <= |t|
    ensures Find(t[..Find(t, pat).value + |pat|] + y, pat) == Find(t, pat)
  {
    ShiftIs();
    hide *;
    FindStep(t, pat);
    var m := Find(t, pat).value + |pat|;
    var x := t[..m] + y;
    PrefixInPrefix(t, m, y, pat);
    FindStep(x, pat);
    if !HasPrefix(t, pat) {
      assert Find(t[1..], pat).Some?;
      FindInPrefix(t[1..], pat, y);
      assert x[1..] == t[1..][..m - 1] + y;
    }
  }

  lemma ShiftIs()
    ensures forall r: Option<nat>, n: nat :: Shift(r, n) == if r.Some? then Some(n + r.value) else None
  {
  }

  lemma PrefixInPrefix(t: string, m: nat, y: string, pat: string)
    requires |pat| <= m <= |t|
    ensures HasPrefix(t[..m] + y, pat) <==> HasPrefix(t, pat)
  {
    assert (t[..m] + y)[..|pat|] == t[..|pat|];
  }

  lemma {:induction false} HashesInPrefix(t: string, m: nat, y: string)
    requires Hashes(t) < m <= |t|
    ensures Hashes(t[..m] + y) == Hashes(t)
  {
    var x := t[..m] + y;
    assert x[0] == t[0];
    if t[0] == '#' {
      HashesInPrefix(t[1..], m - 1, y);
      assert x[1..] == t[1..][..m - 1] + y;
    }
  }

  lemma RawInPrefix(t: string, y: string)
    requires RawLen(t).Some? && RawLen(t).value < |t|
    ensures RawLen(t[..RawLen(t).value] + y) == RawLen(t)
  {
    RawIs(t);
    hide *;
    var h, n := Hashes(t), RawLen(t).value;
    HashesInPrefix(t, n, y);
    CloseInPrefix(t, h, n, y);
    RawFrom(t[..n] + y, h, n);
  }

  lemma CloseInPrefix(t: string, h: nat, n: nat, y: string)
    requires h < |t| && RawClose(h) != "" && Find(t[h + 1..], RawClose(h)).Some?
    requires n == h + 1 + Find(t[h + 1..], RawClose(h)).value + |RawClose(h)| <= |t|
    ensures (t[..n] + y)[h] == t[h]
    ensures Find((t[..n] + y)[h + 1..], RawClose(h)) == Find(t[h + 1..], RawClose(h))
  {
    hide *;
    FindInPrefix(t[h + 1..], RawClose(h), y);
    TailInPrefix(t, n, h + 1, y);
  }

  lemma TailInPrefix(t: string, n: nat, k: nat, y: string)
    requires k <= n <= |t|
    ensures (t[..n] + y)[..k] == t[..k] && (t[..n] + y)[k..] == t[k..][..n - k] + y
  {
  }

  lemma RawIs(t: string)
    requires RawLen(t).Some? && RawLen(t).value < |t|
    ensures var h := Hashes(t);
            && h < |t| && t[h] == '"' && RawClose(h) != "" && |RawClose(h)| == h + 1
            && Find(t[h + 1..], RawClose(h)).Some?
            && RawLen(t).value == h + 1 + Find(t[h + 1..], RawClose(h)).value + |RawClose(h)|
  {
    hide Find, RawClose, Hashes;
  }

  lemma RawFrom(x: string, h: nat, n: nat)
    requires Hashes(x) == h < |x| && x[h] == '"' && RawClose(h) != ""
    requires Find(x[h + 1..], RawClose(h)).Some?
    requires n == h + 1 + Find(x[h + 1..], RawClose(h)).value + |RawClose(h)|
    ensures RawLen(x) == Some(n)
  {
    hide Find, RawClose, Hashes;
  }

  lemma CharInPrefix(t: string, y: string)
    requires t != "" && CharLen(t).Some? && CharLen(t).value < |t|
    ensures CharLen(t[..CharLen(t).value] + y) == CharLen(t)
  {
    var n := CharLen(t).value;
    var x := t[..n] + y;
    assert n >= 3 && x[1] == t[1] && x[2] == t[2];
    var quoted := Find(t[3..], "'");
    if t[1] == '\\' {
      assert quoted.Some? && n == 3 + quoted.value + 1;
      hide Find, CharLen;
      FindInPrefix(t[3..], "'", y);
      assert x[3..] == t[3..][..n - 3] + y;
      EscapedChar(x);
    }
    hide Find;
  }

  lemma EscapedChar(x: string)
    requires |x| >= 3 && x[1] == '\\' && Find(x[3..], "'").Some?
    ensures CharLen(x) == Some(3 + Find(x[3..], "'").value + 1)
  {
    hide Find;
  }

  lemma {:induction false} WordInPrefix(t: string, m: nat, y: string)
    requires WordRun(t) < m <= |t|
    ensures WordRun(t[..m] + y) == WordRun(t)
  {
    hide IsWordChar;
    var x := t[..m] + y;
    assert x[0] == t[0];
    if IsWordChar(t[0]) {
      WordInPrefix(t[1..], m - 1, y);
      assert x[1..] == t[1..][..m - 1] + y;
    }
  }

  predicate IsPrefixWord(w: string) {
    w == "r" || w == "b" || w == "br" || w == "c" || w == "cr"
  }

  /** The literal after its prefix, if the word before it is one. */
  lemma PrefixedLiteral(s: string)
    requires s != "" && s[0] != '"' && s[0] != '\''
    ensures var w, rest := s[..WordLen(s)], s[WordLen(s)..];
            LiteralLen(s) ==
            if !IsPrefixWord(w) then None
            else if w == "r" || w == "br" || w == "cr" then Shift(RawLen(rest), |w|)
            else if At(rest, 0, '"') then Some(|w| + StringLen(rest))
            else if w == "b" && At(rest, 0, '\'') then Shift(CharLen(rest), |w|)
            else None
  {
    hide RawLen, StringLen, CharLen, WordLen;
  }

  lemma WordLenInPrefix(s: string, m: nat, y: string)
    requires s != "" && WordLen(s) < m <= |s|
    ensures WordLen(s[..m] + y) == WordLen(s)
  {
    var x := s[..m] + y;
    assert x[0] == s[0];
    if IsWordStart(s[0]) {
      WordInPrefix(s[1..], m - 1, y);
      assert x[1..] == s[1..][..m - 1] + y;
    }
  }

  lemma ClosesInsideRest(s: string)
    requires s != "" && LiteralLen(s).Some? && s[0] != '"' && s[0] != '\''
    ensures WordLen(s) < LiteralLen(s).value
  {
    PrefixedLiteral(s);
    hide RawLen, StringLen, CharLen, WordLen, LiteralLen;
  }

  lemma LiteralByFirst(s: string)
    requires s != ""
    ensures s[0] == '"' ==> LiteralLen(s) == Some(StringLen(s))
    ensures s[0] == '\'' ==> LiteralLen(s) == CharLen(s)
  {
    hide StringLen, CharLen, RawLen, WordLen;
  }

  lemma PrefixedInPrefix(s: string, y: string)
    requires s != "" && LiteralLen(s).Some? && LiteralLen(s).value < |s| && s[0] != '"' && s[0] != '\''
    ensures LiteralLen(s[..LiteralLen(s).value] + y) == LiteralLen(s)
  {
    hide RawLen, StringLen, CharLen, WordLen, LiteralLen;
    var n, k := LiteralLen(s).value, WordLen(s);
    var x, rest, w := s[..n] + y, s[k..], s[..k];
    ClosesInsideRest(s);
    WordLenInPrefix(s, n, y);
    PrefixedLiteral(s);
    assert x[0] == s[0];
    PrefixedLiteral(x);
    TailInPrefix(s, n, k, y);
    assert x[..k] == w && x[k..] == rest[..n - k] + y;
    if w == "r" || w == "br" || w == "cr" {
      RawInPrefix(rest, y);
    } else if At(rest, 0, '"') {
      StringInPrefix(rest, y);
      assert x[k..][0] == rest[0];
    } else {
      CharInPrefix(rest, y);
      assert x[k..][0] == rest[0];
    }
  }

  /** A literal that closes before the text ends is read from its own text, whatever follows that. */
  lemma LiteralInPrefix(s: string, y: string)
    requires s != "" && LiteralLen(s).Some? && LiteralLen(s).value < |s|
    ensures LiteralLen(s[..LiteralLen(s).value] + y) == LiteralLen(s)
  {
    hide StringLen, CharLen, LiteralLen;
    var x := s[..LiteralLen(s).value] + y;
    assert x[0] == s[0];
    LiteralByFirst(s);
    LiteralByFirst(x);
    if s[0] == '"' {
      StringInPrefix(s, y);
    } else if s[0] == '\'' {
      CharInPrefix(s, y);
    } else {
      PrefixedInPrefix(s, y);
    }
  }

  // ----- Comments, read from their collapsed text -----

  lemma {:induction false} CollapsedLines(t: string, pending: bool, started: bool)
    ensures var z := Collapse(t, pending, started);
            && '\n' !in z && (z != "" && IsSpace(z[0]) ==> pending || (t != "" && IsSpace(t[0])))
            && (z != "" && IsSpace(z[0]) ==> z[0] == ' ')
  {
    assert IsSpace('\n') && IsSpace(' ');
    hide IsSpace;
    if t != "" {
      CollapsedLines(t[1..], IsSpace(t[0]), started || !IsSpace(t[0]));
    }
  }

  /** Collapsing again changes nothing. */
  lemma {:induction false} CollapseAgain(t: string, pending: bool, started: bool)
    ensures Collapse(Collapse(t, pending, started), false, started) == Collapse(t, pending, started)
  {
    assert IsSpace(' ');
    hide IsSpace;
    if t != "" && IsSpace(t[0]) {
      CollapseAgain(t[1..], true, started);
    } else if t != "" {
      var z := Collapse(t[1..], false, true);
      CollapseAgain(t[1..], false, true);
      if pending && started {
        assert (" " + [t[0]] + z)[1..] == [t[0]] + z;
      }
      assert ([t[0]] + z)[1..] == z;
    }
  }

  lemma CollapsedStart(u: string)
    ensures var z := Collapse(u, false, true);
            z != "" ==> u != "" && (if IsSpace(u[0]) then z[0] == ' ' else z[0] == u[0])
  {
    CollapsedLines(u, false, true);
    if u != "" && IsSpace(u[0]) {
      CollapsedGap(u[1..]);
    }
  }

  lemma {:induction false} CollapsedGap(u: string)
    ensures var z := Collapse(u, true, true); z != "" ==> z[0] == ' '
  {
    hide IsSpace;
    if u != "" && IsSpace(u[0]) {
      CollapsedGap(u[1..]);
    }
  }

  lemma BlockStepAt(depth: nat, x: string)
    requires depth > 0 && x != ""
    ensures BlockLen(depth, x) ==
            if At(x, 0, '/') && At(x, 1, '*') then 2 + BlockLen(depth + 1, x[2..])
            else if At(x, 0, '*') && At(x, 1, '/') then 2 + BlockLen(depth - 1, x[2..])
            else 1 + BlockLen(depth, x[1..])
  {
  }

  /** The collapsed inside of a block comment ends where the comment does. */
  lemma {:induction false} BlockCollapsed(depth: nat, t: string, pending: bool, y: string)
    requires depth > 0 && (BlockLen(depth, t) < |t| || y == "")
    ensures var m := BlockLen(depth, t);
            var z := Collapse(t[..m], pending, true);
            BlockLen(depth, z + y) == |z| && (m < |t| ==> z != "")
    decreases |t|, 1
  {
    if t == "" {
      assert t[..0] == "" && "" + y == "";
    } else {
      var m := BlockLen(depth, t);
      BlockStepAt(depth, t);
      if IsSpace(t[0]) {
        BlockCollapsed(depth, t[1..], true, y);
        assert t[..m][1..] == t[1..][..m - 1];
      } else if |t| >= 2 && Mark(t[0], t[1]) {
        BlockCollapsedMark(depth, t, pending, y);
      } else {
        BlockCollapsedChar(depth, t, pending, y);
      }
    }
  }

  lemma GapInBlock(depth: nat, gap: bool, z: string)
    requires depth > 0
    ensures BlockLen(depth, (if gap then " " else "") + z) == BlockLen(depth, z) + if gap then 1 else 0
  {
    if gap {
      assert (" " + z)[1..] == z;
      BlockStepAt(depth, " " + z);
    } else {
      assert "" + z == z;
    }
  }

  lemma JoinMark(depth: nat, gap: bool, opens: bool, z: string, y: string)
    requires depth > 0
    requires BlockLen(if opens then depth + 1 else depth - 1, z + y) == |z|
    ensures var x := (if gap then " " else "") + (if opens then "/*" else "*/") + z;
            BlockLen(depth, x + y) == |x|
  {
    hide *;
    var mark := if opens then "/*" else "*/";
    var g := if gap then " " else "";
    if opens {
      BlockOpens(depth, z + y);
    } else {
      BlockCloses(depth, z + y);
    }
    GapInBlock(depth, gap, mark + (z + y));
    assert (g + mark + z) + y == g + (mark + (z + y));
  }

  lemma JoinChar(depth: nat, gap: bool, c: char, z: string, y: string)
    requires depth > 0 && BlockLen(depth, z + y) == |z|
    requires z + y != "" ==> !Mark(c, (z + y)[0])
    ensures var x := (if gap then " " else "") + [c] + z;
            BlockLen(depth, x + y) == |x|
  {
    var x := [c] + (z + y);
    var g := if gap then " " else "";
    assert x[1..] == z + y;
    BlockStepAt(depth, x);
    hide BlockLen;
    GapInBlock(depth, gap, x);
    assert (g + [c] + z) + y == g + x;
  }

  lemma CollapseOne(t: string, m: nat, pending: bool)
    requires 0 < m <= |t| && !IsSpace(t[0])
    ensures Collapse(t[..m], pending, true) == (if pending then " " else "") + [t[0]] + Collapse(t[1..][..m - 1], false, true)
  {
    assert t[..m][1..] == t[1..][..m - 1];
  }

  lemma CollapseMark(t: string, m: nat, pending: bool)
    requires 2 <= m <= |t| && Mark(t[0], t[1])
    ensures Collapse(t[..m], pending, true) ==
            (if pending then " " else "") + (if t[0] == '/' then "/*" else "*/") + Collapse(t[2..][..m - 2], false, true)
  {
    assert !IsSpace('/') && !IsSpace('*');
    CollapseOne(t, m, pending);
    CollapseOne(t[1..], m - 1, false);
    hide IsSpace, Collapse;
    var z := Collapse(t[2..][..m - 2], false, true);
    assert t[1..][1..] == t[2..];
    assert (if pending then " " else "") + [t[0]] + ([t[1]] + z)
        == (if pending then " " else "") + (if t[0] == '/' then "/*" else "*/") + z;
  }

  lemma {:induction false} BlockCollapsedMark(depth: nat, t: string, pending: bool, y: string)
    requires depth > 0 && (BlockLen(depth, t) < |t| || y == "")
    requires |t| >= 2 && Mark(t[0], t[1])
    ensures var m := BlockLen(depth, t);
            var z := Collapse(t[..m], pending, true);
            BlockLen(depth, z + y) == |z| && z != ""
    decreases |t|, 0
  {
    var m, opens, rest := BlockLen(depth, t), t[0] == '/', t[2..];
    var deeper := if opens then depth + 1 else depth - 1;
    BlockStepAt(depth, t);
    CollapseMark(t, m, pending);
    if deeper > 0 {
      BlockCollapsed(deeper, rest, false, y);
    } else {
      assert rest[..0] == "";
    }
    hide BlockLen, Collapse, Mark;
    JoinMark(depth, pending, opens, Collapse(rest[..m - 2], false, true), y);
  }

  lemma {:induction false} BlockCollapsedChar(depth: nat, t: string, pending: bool, y: string)
    requires depth > 0 && (BlockLen(depth, t) < |t| || y == "")
    requires t != "" && !IsSpace(t[0]) && (|t| >= 2 ==> !Mark(t[0], t[1]))
    ensures var m := BlockLen(depth, t);
            var z := Collapse(t[..m], pending, true);
            BlockLen(depth, z + y) == |z| && z != ""
    decreases |t|, 0
  {
    hide IsSpace;
    var m, rest := BlockLen(depth, t), t[1..];
    var z := Collapse(rest[..m - 1], false, true);
    BlockStepAt(depth, t);
    BlockCollapsed(depth, rest, false, y);
    CollapsedStart(rest[..m - 1]);
    CollapseOne(t, m, pending);
    hide Collapse, BlockLen;
    assert z + y != "" ==> z != "" && (z + y)[0] == z[0] && (z[0] == t[1] || z[0] == ' ');
    JoinChar(depth, pending, t[0], z, y);
  }

  lemma SlashIsNoLiteral(x: string)
    requires At(x, 0, '/')
    ensures LiteralLen(x) == None && !IsSpace(x[0])
  {
    PrefixedLiteral(x);
    assert x[..WordLen(x)] == "";
    hide LiteralLen;
  }

  /** A block comment is read from its collapsed text, whatever follows it; one that does not close is the
      last. */
  lemma BlockInPrefix(s: string, y: string)
    requires At(s, 0, '/') && At(s, 1, '*') && (CommentLen(s).value < |s| || y == "")
    ensures var z := Collapse(s[..CommentLen(s).value], false, false);
            At(z, 0, '/') && CommentLen(z + y) == Some(|z|) && Collapse(z, false, false) == z
  {
    var n := CommentLen(s).value;
    var z := Collapse(s[..n], false, false);
    var inner := Collapse(s[2..][..n - 2], false, true);
    CommentStart(s, n);
    CollapseAgain(s[..n], false, false);
    BlockCollapsed(1, s[2..], false, y);
    hide BlockLen, Collapse;
    assert z == ['/', s[1]] + inner;
    assert (z + y)[2..] == inner + y;
  }

  /** The two characters that open a comment stay. */
  lemma CommentStart(s: string, n: nat)
    requires 2 <= n <= |s| && s[0] == '/' && (s[1] == '/' || s[1] == '*')
    ensures Collapse(s[..n], false, false) == ['/', s[1]] + Collapse(s[2..][..n - 2], false, true)
  {
    assert !IsSpace('/') && !IsSpace('*');
    var u := s[..n];
    assert u[1..][1..] == s[2..][..n - 2];
    assert Collapse(u, false, false) == "" + [u[0]] + Collapse(u[1..], false, true);
    assert Collapse(u[1..], false, true) == "" + [u[1]] + Collapse(u[1..][1..], false, true);
  }

  /** A line comment is read from its collapsed text when nothing follows. */
  lemma LineAlone(s: string)
    requires At(s, 0, '/') && At(s, 1, '/')
    ensures var z := Collapse(s[..CommentLen(s).value], false, false);
            HasPrefix(z, "//") && CommentLen(z) == Some(|z|) && Collapse(z, false, false) == z
  {
    var n := CommentLen(s).value;
    var z := Collapse(s[..n], false, false);
    LineLength(s);
    CommentStart(s, n);
    CollapseAgain(s[..n], false, false);
    CollapsedLines(s[..n], false, false);
    assert z[..2] == "//";
    NoLineBreak(z);
    hide Collapse, Find;
  }

  lemma {:induction false} NoLineBreak(z: string)
    requires '\n' !in z
    ensures Find(z, "\n") == None
  {
    if z != "" {
      assert z[..1] == [z[0]];
      NoLineBreak(z[1..]);
    }
  }

  /** A line comment goes up to the line break or the end. */
  lemma LineLength(s: string)
    requires At(s, 0, '/') && At(s, 1, '/')
    ensures var n := CommentLen(s).value; 2 <= n && (n < |s| ==> s[n] == '\n') && '\n' !in s[..n]
  {
    var n := CommentLen(s).value;
    FindIsFirst(s, "\n");
    forall k | 0 <= k < n
      ensures s[k] != '\n'
    {
      assert HasPrefix(s[k..], "\n") <==> s[k] == '\n' by {
        assert s[k..][..1] == [s[k]];
      }
    }
    if Find(s, "\n").Some? {
      assert s[n..][..1] == "\n" && s[n] == s[n..][..1][0];
    }
  }

  // ----- What follows a single character -----

  /** Length of the text up to its first blank. */
  function Solid(s: string): (n: nat)
    ensures n <= |s| && (forall k :: 0 <= k < n ==> !IsSpace(s[k])) && (n < |s| ==> IsSpace(s[n]))
  {
    if s == "" || IsSpace(s[0]) then 0 else 1 + Solid(s[1..])
  }

  /** The texts agree up to the first blank, which ends both or stands in both. */
  predicate SameStart(s: string, x: string) {
    var n := Solid(s);
    n <= |x| && x[..n] == s[..n] && (n < |x| ==> IsSpace(x[n]))
  }

  lemma {:induction false} SolidIs(s: string, n: nat)
    requires n <= |s| && (forall k :: 0 <= k < n ==> !IsSpace(s[k])) && (n < |s| ==> IsSpace(s[n]))
    ensures Solid(s) == n
  {
    hide IsSpace;
    if n > 0 {
      SolidIs(s[1..], n - 1);
    }
  }

  lemma SameAt(s: string, x: string, k: nat)
    requires SameStart(s, x) && k <= Solid(s)
    ensures k < Solid(s) ==> k < |x| && x[k] == s[k]
    ensures SameStart(s[k..], x[k..]) && Solid(s[k..]) == Solid(s) - k
    ensures forall c :: !IsSpace(c) && k == Solid(s) ==> !At(x, k, c) && !At(s, k, c)
    ensures forall c :: k < Solid(s) ==> (At(x, k, c) <==> At(s, k, c))
  {
    hide IsSpace;
    var n := Solid(s);
    assert k < n ==> x[k] == x[..n][k];
    SolidIs(s[k..], n - k);
    assert x[k..][..n - k] == x[..n][k..] && s[k..][..n - k] == s[..n][k..];
  }

  lemma {:induction false} WordStays(s: string, x: string)
    requires SameStart(s, x)
    ensures WordRun(x) == WordRun(s) <= Solid(s)
  {
    SameAt(s, x, 0);
    WordCharIsSolid();
    hide IsSpace, IsWordChar, SameStart;
    if s != "" && IsWordChar(s[0]) {
      SameAt(s, x, 1);
      WordStays(s[1..], x[1..]);
    } else if x != "" {
      assert !IsWordChar(x[0]);
    }
  }

  lemma WordCharIsSolid()
    ensures forall c :: IsWordChar(c) ==> !IsSpace(c)
    ensures !IsSpace('\'') && !IsSpace('"') && !IsSpace('#') && !IsSpace('\\') && !IsSpace('/') && !IsSpace('*')
  {
  }

  lemma {:induction false} HashesStay(s: string, x: string)
    requires SameStart(s, x)
    ensures Hashes(x) == Hashes(s) <= Solid(s)
  {
    SameAt(s, x, 0);
    WordCharIsSolid();
    hide IsSpace, SameStart;
    if At(s, 0, '#') {
      SameAt(s, x, 1);
      HashesStay(s[1..], x[1..]);
    }
  }

  lemma WordLenStays(s: string, x: string)
    requires SameStart(s, x) && s != "" && !IsSpace(s[0])
    ensures WordLen(x) == WordLen(s) <= Solid(s) && x[..WordLen(s)] == s[..WordLen(s)]
  {
    SameAt(s, x, 0);
    SameAt(s, x, 1);
    WordStays(s[1..], x[1..]);
    hide IsSpace;
    assert x[..WordLen(s)] == x[..Solid(s)][..WordLen(s)];
    assert s[..WordLen(s)] == s[..Solid(s)][..WordLen(s)];
  }

  lemma RawStays(s: string, x: string)
    requires SameStart(s, x) && RawLen(s) == None
    ensures RawLen(x) == None
  {
    HashesStay(s, x);
    SameAt(s, x, Hashes(s));
    WordCharIsSolid();
    hide IsSpace, SameStart, Find;
  }

  /** A lone quote stays one when no second quote comes up behind a single blank. */
  lemma QuoteStays(s: string, x: string)
    requires SameStart(s, x) && At(s, 0, '\'') && CharLen(s) == None
    requires Solid(s) == 1 ==> !At(x, 2, '\'')
    ensures At(x, 0, '\'') && CharLen(x) == None
  {
    WordCharIsSolid();
    SameAt(s, x, 0);
    SameAt(s, x, 1);
    if Solid(s) >= 2 {
      SameAt(s, x, 2);
    }
    hide IsSpace, SameStart, Find;
  }

  /** The text behind a byte prefix has a lone quote in front. */
  predicate QuoteAfterByte(s: string) {
    At(s, 0, 'b') && At(s, 1, '\'')
  }

  /** A single character stays one in every text that starts alike. */
  lemma CharStays(s: string, x: string)
    requires s != "" && !IsSpace(s[0]) && LiteralLen(s) == None && CommentLen(s) == None && SameStart(s, x)
    requires s[0] == '\'' && Solid(s) == 1 ==> !At(x, 2, '\'')
    requires QuoteAfterByte(s) && Solid(s) == 2 ==> !At(x, 3, '\'')
    ensures x != "" && x[0] == s[0] && LiteralLen(x) == None && CommentLen(x) == None
  {
    WordCharIsSolid();
    SameAt(s, x, 0);
    SameAt(s, x, 1);
    LiteralByFirst(s);
    LiteralByFirst(x);
    if s[0] == '\'' {
      QuoteStays(s, x);
      hide LiteralLen;
    } else {
      WordLenStays(s, x);
      PrefixedLiteral(s);
      PrefixedLiteral(x);
      var k := WordLen(s);
      SameAt(s, x, k);
      hide LiteralLen, RawLen, StringLen, CharLen, WordLen, IsSpace, SameStart;
      var w, rest, y := s[..k], s[k..], x[k..];
      if w == "r" || w == "br" || w == "cr" {
        RawStays(rest, y);
      } else if w == "b" && At(rest, 0, '\'') {
        assert s[0] == w[0] && s[1] == rest[0];
        assert At(y, 2, '\'') <==> At(x, 3, '\'');
        QuoteStays(rest, y);
      } else if w == "b" || w == "c" {
        SameAt(rest, y, 0);
      }
    }
    SlashStays(s, x);
  }

  lemma SlashStays(s: string, x: string)
    requires s != "" && SameStart(s, x) && CommentLen(s) == None && !IsSpace(s[0])
    ensures CommentLen(x) == None
  {
    WordCharIsSolid();
    SameAt(s, x, 0);
    SameAt(s, x, 1);
    hide IsSpace, SameStart, Find;
  }

  // ----- The normal form starts as the text does -----

  lemma {:induction false} GapStarts(u: string)
    ensures var n := Normalised(u, true, true); n == "" || n[0] == ' '
    decreases |u|
  {
    hide IsSpace, LiteralLen, Piece, PieceLen;
    if u != "" && LiteralLen(u).None? && IsSpace(u[0]) {
      GapStarts(u[1..]);
    }
  }

  lemma {:induction false} BlockEnds(depth: nat, t: string)
    requires depth > 0 && BlockLen(depth, t) < |t|
    ensures BlockLen(depth, t) >= 2 && t[BlockLen(depth, t) - 1] == '/'
    decreases |t|
  {
    BlockStepAt(depth, t);
    if At(t, 0, '/') && At(t, 1, '*') {
      BlockEnds(depth + 1, t[2..]);
    } else if At(t, 0, '*') && At(t, 1, '/') {
      if depth > 1 {
        BlockEnds(depth - 1, t[2..]);
      }
    } else {
      BlockEnds(depth, t[1..]);
    }
  }

  /** Up to its first blank a text is not changed by collapsing. */
  lemma {:induction false} CollapsedPrefix(u: string)
    ensures Collapse(u, false, true) == u[..Solid(u)] + Collapse(u[Solid(u)..], false, true)
  {
    SolidStep(u);
    hide *;
    if u != "" && !IsSpace(u[0]) {
      var r := Solid(u[1..]);
      CollapsedPrefix(u[1..]);
      assert u[1..][r..] == u[r + 1..];
      assert u[..r + 1] == [u[0]] + u[1..][..r];
    } else {
      assert u[0..] == u && u[..0] == "";
    }
  }

  lemma SolidStep(u: string)
    ensures u == "" || IsSpace(u[0]) ==> Solid(u) == 0
    ensures u != "" && !IsSpace(u[0]) ==>
              Solid(u) == 1 + Solid(u[1..]) && Collapse(u, false, true) == [u[0]] + Collapse(u[1..], false, true)
  {
    hide IsSpace;
    assert u != "" ==> "" + [u[0]] == [u[0]];
  }

  lemma {:induction false} CollapseEnds(u: string, pending: bool, started: bool)
    requires u != "" && !IsSpace(u[|u| - 1])
    ensures Collapse(u, pending, started) != ""
  {
    hide IsSpace;
    if |u| > 1 && IsSpace(u[0]) {
      CollapseEnds(u[1..], true, started);
    }
  }

  lemma TextKeepsSolid(u: string, s: string, x: string)
    requires SameStart(s, x)
    ensures SameStart(u + s, u + x)
  {
    hide IsSpace;
    var r := Solid(u);
    if r < |u| {
      SolidIs(u + s, r);
      assert (u + s)[..r] == u[..r] == (u + x)[..r];
    } else {
      var n := |u| + Solid(s);
      SolidIs(u + s, n);
      assert (u + s)[..n] == u + s[..Solid(s)] && (u + x)[..n] == u + x[..Solid(s)];
    }
  }

  lemma SameStartAt(s: string, x: string, n: nat)
    requires n <= |s| && n <= |x| && s[..n] == x[..n]
    requires (forall k :: 0 <= k < n ==> !IsSpace(s[k])) && (n < |s| ==> IsSpace(s[n])) && (n < |x| ==> IsSpace(x[n]))
    ensures SameStart(s, x)
  {
    SolidIs(s, n);
    hide IsSpace;
  }

  lemma BlankIsSpace()
    ensures IsSpace(' ')
  {
  }

  lemma CutAtBlank(u: string, s: string, q: string, x: string)
    requires Solid(u) < |u| && (q != "" ==> q[0] == ' ') && (q == "" ==> x == "" || IsSpace(x[0]))
    ensures SameStart(u + s, u[..Solid(u)] + q + x)
  {
    BlankIsSpace();
    hide *;
    var r := Solid(u);
    var y := u[..r] + q + x;
    assert (u + s)[..r] == u[..r] == y[..r];
    assert y[r..] == q + x;
    assert r < |y| ==> y[r] == (q + x)[0];
    assert (u + s)[r] == u[r];
    SameStartAt(u + s, y, r);
  }

  lemma CollapseFresh(u: string)
    requires u != "" && !IsSpace(u[0])
    ensures Collapse(u, false, false) == Collapse(u, false, true) && Collapse("", false, true) == ""
  {
  }

  lemma CollapsedKeepsSolid(u: string, s: string, x: string)
    requires u != "" && !IsSpace(u[0]) && SameStart(s, x)
    requires x == "" || IsSpace(x[0]) || !IsSpace(u[|u| - 1])
    ensures SameStart(u + s, Collapse(u, false, false) + x)
  {
    hide *;
    var r := Solid(u);
    var q := Collapse(u[r..], false, true);
    CollapseFresh(u);
    CollapsedPrefix(u);
    if r == |u| {
      assert u[r..] == "" && u[..r] == u && u + "" == u;
      TextKeepsSolid(u, s, x);
    } else {
      CollapsedStart(u[r..]);
      if !IsSpace(u[|u| - 1]) {
        assert u[r..][|u[r..]| - 1] == u[|u| - 1];
        CollapseEnds(u[r..], false, true);
      }
      CutAtBlank(u, s, q, x);
    }
  }

  /** How a comment piece and the normal form of what follows it meet. */
  lemma CommentMeets(s: string)
    requires s != "" && LiteralLen(s) == None && CommentLen(s).Some?
    ensures var n := CommentLen(s).value;
            var x := Normalised(s[n..], false, true);
            2 <= n && s[0] == '/' && (s[1] == '/' || s[1] == '*')
            && (x == "" || IsSpace(x[0]) || !IsSpace(s[n - 1]))
            && (s[1] == '*' && n == |s| ==> x == "")
  {
    var n := CommentLen(s).value;
    if s[1] == '/' {
      LineLength(s);
      if n < |s| {
        assert IsSpace('\n');
        assert LiteralLen(s[n..]) == None;
        GapStarts(s[n..][1..]);
        assert Normalised(s[n..], false, true) == Normalised(s[n..][1..], true, true);
        assert IsSpace(' ');
      } else {
        assert s[n..] == "";
      }
    } else if n < |s| {
      BlockEnds(1, s[2..]);
      assert !IsSpace('/');
    } else {
      assert s[n..] == "";
    }
  }

  lemma PieceIs(s: string)
    requires s != ""
    ensures LiteralLen(s).Some? ==> PieceLen(s) == LiteralLen(s).value && Piece(s) == s[..PieceLen(s)]
    ensures LiteralLen(s).None? && CommentLen(s).Some? ==>
              PieceLen(s) == CommentLen(s).value && Piece(s) == Collapse(s[..PieceLen(s)], false, false)
    ensures LiteralLen(s).None? && CommentLen(s).None? ==> PieceLen(s) == 1 && Piece(s) == [s[0]]
  {
    hide LiteralLen, CommentLen, Collapse;
  }

  /** What follows a token keeps its start, blanks apart. */
  lemma {:induction false} NormalKeepsSolid(s: string)
    ensures SameStart(s, Normalised(s, false, true))
    decreases |s|
  {
    hide *;
    var y := Normalised(s, false, true);
    NormalisedStep(s, false, true);
    if s == "" {
      SameStartAt(s, y, 0);
    } else if LiteralLen(s).None? && IsSpace(s[0]) {
      GapStarts(s[1..]);
      BlankIsSpace();
      SameStartAt(s, y, 0);
    } else {
      var n := PieceLen(s);
      var x := Normalised(s[n..], false, true);
      NormalKeepsSolid(s[n..]);
      PieceIs(s);
      assert s == s[..n] + s[n..] && y == Piece(s) + x;
      if LiteralLen(s).None? && CommentLen(s).Some? {
        CommentMeets(s);
        CollapsedKeepsSolid(s[..n], s[n..], x);
      } else {
        assert [s[0]] == s[..1];
        TextKeepsSolid(s[..n], s[n..], x);
      }
    }
  }
}
