/** When the normal form of a function text, read again, gives its tokens back: exactly when no line
    comment is followed by a token, and no lone quote by blanks and a quote. */
module NormalForms {
  import opened Prelude
  import opened RustLexemes
  import opened FnBodies
  import opened FnTokens

  // ----- Reading a token again -----

  /** The first token of the text and the normal form of the rest. */
  function Respelt(s: string): string
    requires s != ""
  {
    Piece(s) + Normalised(s[PieceLen(s)..], false, true)
  }

  /** A piece starts here that is the whole of this text. */
  predicate ReadsAs(x: string, text: string) {
    && x != "" && text <= x && (LiteralLen(x).Some? || !IsSpace(x[0]))
    && PieceLen(x) == |text| && Piece(x) == text
  }

  lemma NormalisedNothing()
    ensures Normalised("", false, true) == ""
  {
  }

  lemma RereadLiteral(s: string)
    requires s != "" && LiteralLen(s).Some?
    ensures ReadsAs(Respelt(s), Piece(s))
  {
    hide LiteralLen, CommentLen, Piece, PieceLen, Normalised, IsSpace;
    var x := Respelt(s);
    PieceIs(s);
    var n := PieceLen(s);
    if n < |s| {
      LiteralInPrefix(s, Normalised(s[n..], false, true));
    } else {
      NormalisedNothing();
      assert s[n..] == "" && x == s[..n] + "" == s;
    }
    PieceIs(x);
    assert x[..n] == s[..n];
  }

  lemma RereadComment(s: string)
    requires s != "" && LiteralLen(s) == None && CommentLen(s).Some?
    requires s[1] == '/' ==> Normalised(s[PieceLen(s)..], false, true) == ""
    ensures ReadsAs(Respelt(s), Piece(s))
  {
    CommentMeets(s);
    PieceIs(s);
    var n, y := PieceLen(s), Normalised(s[PieceLen(s)..], false, true);
    var z, x := Piece(s), Respelt(s);
    hide LiteralLen, CommentLen, Piece, PieceLen, Normalised, IsSpace, Collapse;
    if s[1] == '/' {
      LineAlone(s);
      assert z[..2] == "//" && z[0] == z[..2][0];
      assert x == z + "" == z;
    } else {
      BlockInPrefix(s, y);
    }
    SlashIsNoLiteral(x);
    PieceIs(x);
    assert x[..|z|] == z;
  }

  lemma RereadChar(s: string)
    requires s != "" && !IsSpace(s[0]) && LiteralLen(s) == None && CommentLen(s) == None
    requires s[0] == '\'' && Solid(s) == 1 ==> !At(Respelt(s), 2, '\'')
    requires QuoteAfterByte(s) && Solid(s) == 2 ==> !At(Respelt(s), 3, '\'')
    ensures ReadsAs(Respelt(s), Piece(s))
  {
    hide LiteralLen, CommentLen, Piece, PieceLen, Normalised, IsSpace, SameStart, Solid;
    PieceIs(s);
    var x := Respelt(s);
    NormalKeepsSolid(s[1..]);
    TextKeepsSolid([s[0]], s[1..], Normalised(s[1..], false, true));
    assert s == [s[0]] + s[1..];
    CharStays(s, x);
    PieceIs(x);
  }

  // ----- Reading the whole normal form again -----

  lemma TokensStep(s: string, pending: bool, started: bool)
    ensures s == "" ==> Tokens(s, pending, started) == []
    ensures s != "" && LiteralLen(s).None? && IsSpace(s[0]) ==> Tokens(s, pending, started) == Tokens(s[1..], true, started)
    ensures s != "" && !(LiteralLen(s).None? && IsSpace(s[0])) ==>
              Tokens(s, pending, started) ==
              [Token(pending && started, Piece(s))] + Tokens(s[PieceLen(s)..], false, true)
  {
    hide LiteralLen, Piece, PieceLen, IsSpace;
  }

  lemma SpeltStep(head: Token, rest: seq<Token>)
    ensures Spelt([head] + rest) == (if head.gap then " " else "") + head.text + Spelt(rest)
  {
    assert ([head] + rest)[1..] == rest;
  }

  lemma PieceStarts(s: string)
    requires s != "" && (LiteralLen(s).Some? || !IsSpace(s[0]))
    ensures Piece(s) != "" && Piece(s)[0] == s[0] && !IsSpace(s[0])
  {
    PieceIs(s);
    if LiteralLen(s).None? && CommentLen(s).Some? {
      CommentMeets(s);
      CommentStart(s, PieceLen(s));
    }
    hide LiteralLen, CommentLen, Piece, PieceLen, Collapse;
  }

  /** Every token starts with a character that is no blank. */
  lemma {:induction false} TokensStart(s: string, pending: bool, started: bool)
    ensures forall t :: t in Tokens(s, pending, started) ==> t.text != "" && !IsSpace(t.text[0])
    decreases |s|
  {
    hide *;
    TokensStep(s, pending, started);
    if s == "" {
    } else if LiteralLen(s).None? && IsSpace(s[0]) {
      TokensStart(s[1..], true, started);
    } else {
      PieceStarts(s);
      TokensStart(s[PieceLen(s)..], false, true);
    }
  }

  /** The first characters of spelt tokens. */
  lemma SpeltStarts(tokens: seq<Token>)
    requires forall t :: t in tokens ==> t.text != "" && !IsSpace(t.text[0])
    ensures Spelt(tokens) == "" <==> tokens == []
    ensures tokens != [] && !tokens[0].gap ==> Spelt(tokens)[0] == tokens[0].text[0]
    ensures tokens != [] && tokens[0].gap ==> |Spelt(tokens)| >= 2 && Spelt(tokens)[..2] == [' ', tokens[0].text[0]]
  {
    hide IsSpace;
    if tokens != [] {
      assert tokens[0] in tokens;
    }
  }

  lemma FaithfulTail(head: Token, rest: seq<Token>)
    ensures Faithful([head] + rest) <==>
              Faithful(rest) && (rest != [] ==> !IsLineComment(head) && !LooseQuotes(head, rest[0]))
  {
    hide IsLineComment, LooseQuotes;
    var ts := [head] + rest;
    if Faithful(ts) {
      forall k | 0 <= k < |rest| - 1
        ensures !IsLineComment(rest[k]) && !LooseQuotes(rest[k], rest[k + 1])
      {
        assert ts[k + 1] == rest[k] && ts[k + 2] == rest[k + 1];
      }
      if rest != [] {
        assert ts[0] == head && ts[1] == rest[0];
      }
    }
    if Faithful(rest) && (rest != [] ==> !IsLineComment(head) && !LooseQuotes(head, rest[0])) {
      forall k | 0 <= k < |ts| - 1
        ensures !IsLineComment(ts[k]) && !LooseQuotes(ts[k], ts[k + 1])
      {
        if k > 0 {
          assert ts[k] == rest[k - 1] && ts[k + 1] == rest[k];
        }
      }
    }
  }

  lemma TightTail(head: Token, rest: seq<Token>)
    ensures Tight([head] + rest) <==> Tight(rest) && (rest != [] ==> !LooseQuotes(head, rest[0]))
  {
    hide LooseQuotes;
    var ts := [head] + rest;
    if Tight(rest) && (rest != [] ==> !LooseQuotes(head, rest[0])) {
      forall k | 0 <= k < |ts| - 1
        ensures !LooseQuotes(ts[k], ts[k + 1])
      {
        if k > 0 {
          assert ts[k] == rest[k - 1] && ts[k + 1] == rest[k];
        }
      }
    }
    if Tight(ts) {
      forall k | 0 <= k < |rest| - 1
        ensures !LooseQuotes(rest[k], rest[k + 1])
      {
        assert ts[k + 1] == rest[k] && ts[k + 2] == rest[k + 1];
      }
      assert rest != [] ==> ts[0] == head && ts[1] == rest[0];
    }
  }

  lemma FaithfulIsTight(tokens: seq<Token>)
    requires Faithful(tokens)
    ensures Tight(tokens)
  {
    hide LooseQuotes, IsLineComment;
  }

  // ----- When it does -----

  lemma ByteQuote(s: string)
    requires QuoteAfterByte(s) && LiteralLen(s) == None
    ensures LiteralLen(s[1..]) == None && CommentLen(s[1..]) == None
  {
    PrefixedLiteral(s);
    assert WordRun(s[1..]) == 0 && WordLen(s) == 1 && s[..1] == "b";
    LiteralByFirst(s[1..]);
    hide LiteralLen, CharLen;
  }

  /** Behind a lone quote with a blank after it no second quote comes up. */
  lemma QuoteGuard(s: string)
    requires At(s, 0, '\'') && LiteralLen(s) == None && Solid(s) == 1
    requires Tight(Tokens(s, false, true))
    ensures !At(Respelt(s), 2, '\'')
  {
    var rest := s[1..];
    var ts, y := Tokens(rest, false, true), Normalised(rest, false, true);
    assert CommentLen(s) == None;
    assert rest != "" ==> IsSpace(rest[0]) && LiteralLen(rest) == None;
    assert !IsSpace('\'') && !IsSpace(s[0]);
    hide *;
    PieceIs(s);
    TokensStep(s, false, true);
    TightTail(Token(false, Piece(s)), ts);
    NormalFormSpells(rest, false, true);
    TokensStart(rest, false, true);
    SpeltStarts(ts);
    NormalisedStep(rest, false, true);
    if rest != "" {
      GapStarts(rest[1..]);
    }
    assert Respelt(s) == Piece(s) + y by {
      RespeltIs(s);
    }
    BlankIsSpace();
    if ts != [] {
      LooseIs(Token(false, Piece(s)), ts[0]);
      assert ts[0].gap;
      assert y[1] == y[..2][1] == ts[0].text[0];
    }
  }

  lemma RespeltIs(s: string)
    requires s != ""
    ensures Respelt(s) == Piece(s) + Normalised(s[PieceLen(s)..], false, true)
  {
  }

  lemma LooseIs(t: Token, next: Token)
    ensures LooseQuotes(t, next) <==> t.text == "'" && next.gap && At(next.text, 0, '\'')
  {
  }

  /** A token of tight text is read again as it is, unless it is a line comment with tokens behind it. */
  lemma RereadPiece(s: string, pending: bool, started: bool)
    requires s != "" && (LiteralLen(s).Some? || !IsSpace(s[0])) && Tight(Tokens(s, pending, started))
    requires Tokens(s[PieceLen(s)..], false, true) != [] ==> !IsLineComment(Token(pending && started, Piece(s)))
    ensures ReadsAs(Respelt(s), Piece(s))
  {
    hide *;
    var head, rest := Token(pending && started, Piece(s)), Tokens(s[PieceLen(s)..], false, true);
    if LiteralLen(s).Some? {
      RereadLiteral(s);
    } else if CommentLen(s).Some? {
      LineIsLast(s, head, rest);
      RereadComment(s);
    } else {
      TightAnyGap(s, pending, started);
      CharGuard(s);
      RereadChar(s);
    }
  }

  lemma TightAnyGap(s: string, pending: bool, started: bool)
    requires s != "" && (LiteralLen(s).Some? || !IsSpace(s[0])) && Tight(Tokens(s, pending, started))
    ensures Tight(Tokens(s, false, true))
  {
    hide *;
    var rest := Tokens(s[PieceLen(s)..], false, true);
    TokensStep(s, pending, started);
    TokensStep(s, false, true);
    TightTail(Token(pending && started, Piece(s)), rest);
    TightTail(Token(false, Piece(s)), rest);
    if rest != [] {
      LooseIs(Token(pending && started, Piece(s)), rest[0]);
      LooseIs(Token(false, Piece(s)), rest[0]);
    }
  }

  /** A line comment without tokens behind it is the last of the normal form. */
  lemma LineIsLast(s: string, head: Token, rest: seq<Token>)
    requires s != "" && LiteralLen(s) == None && CommentLen(s).Some? && head.text == Piece(s)
    requires rest == Tokens(s[PieceLen(s)..], false, true) && (rest != [] ==> !IsLineComment(head))
    ensures s[1] == '/' ==> Normalised(s[PieceLen(s)..], false, true) == ""
  {
    CommentMeets(s);
    PieceIs(s);
    hide LiteralLen, CommentLen, Piece, PieceLen, Normalised, Tokens, Collapse;
    NormalFormSpells(s[PieceLen(s)..], false, true);
    if s[1] == '/' {
      LineAlone(s);
    }
  }

  lemma ByteGuard(s: string)
    requires QuoteAfterByte(s) && Solid(s) == 2 && LiteralLen(s) == None && CommentLen(s) == None
    requires Tight(Tokens(s, false, true))
    ensures !At(Respelt(s), 3, '\'')
  {
    var next := s[1..];
    ByteQuote(s);
    ByteIsSolid(s);
    assert next[0] == '\'';
    hide *;
    PieceIs(s);
    TokensStep(s, false, true);
    TightTail(Token(false, Piece(s)), Tokens(next, false, true));
    AtIs(next, 0, '\'');
    QuoteGuard(next);
    RespeltIs(s);
    RespeltIs(next);
    NormalisedStep(next, false, true);
    assert Respelt(s) == [s[0]] + Respelt(next);
    AtIs(Respelt(s), 3, '\'');
    AtIs(Respelt(next), 2, '\'');
  }

  lemma ByteIsSolid(s: string)
    requires QuoteAfterByte(s) && Solid(s) == 2
    ensures Solid(s[1..]) == 1 && !IsSpace(s[0]) && !IsSpace(s[1])
  {
    hide IsSpace;
    assert !IsSpace(s[0]);
  }

  lemma AtIs(s: string, k: nat, c: char)
    ensures At(s, k, c) <==> k < |s| && s[k] == c
  {
  }

  lemma CharGuard(s: string)
    requires s != "" && !IsSpace(s[0]) && LiteralLen(s) == None && CommentLen(s) == None
    requires Tight(Tokens(s, false, true))
    ensures s[0] == '\'' && Solid(s) == 1 ==> !At(Respelt(s), 2, '\'')
    ensures QuoteAfterByte(s) && Solid(s) == 2 ==> !At(Respelt(s), 3, '\'')
  {
    hide *;
    if s[0] == '\'' && Solid(s) == 1 {
      AtIs(s, 0, '\'');
      QuoteGuard(s);
    }
    if QuoteAfterByte(s) && Solid(s) == 2 {
      ByteGuard(s);
    }
  }

  /** The normal form of faithful text gives its tokens back. */
  lemma {:induction false} FaithfulIsReread(s: string, pending: bool, started: bool)
    requires Faithful(Tokens(s, pending, started))
    ensures Tokens(Spelt(Tokens(s, pending, started)), false, started) == Tokens(s, pending, started)
    decreases |s|
  {
    hide *;
    TokensStep(s, pending, started);
    if s == "" {
      NothingSpelt(started);
    } else if LiteralLen(s).None? && IsSpace(s[0]) {
      FaithfulIsReread(s[1..], true, started);
    } else {
      var gap, rest := pending && started, s[PieceLen(s)..];
      var head, ts := Token(gap, Piece(s)), Tokens(rest, false, true);
      FaithfulTail(head, ts);
      FaithfulIsReread(rest, false, true);
      FaithfulIsTight([head] + ts);
      RereadPiece(s, pending, started);
      NormalFormSpells(rest, false, true);
      RespeltIs(s);
      SpeltStep(head, ts);
      SpeltTokens(Respelt(s), Piece(s), gap, started);
      assert Respelt(s)[|Piece(s)|..] == Spelt(ts);
    }
  }

  lemma NothingSpelt(started: bool)
    ensures Spelt([]) == "" && Tokens("", false, started) == []
  {
  }

  /** The tokens of a text with a piece in front, behind a gap or not. */
  lemma SpeltTokens(x: string, text: string, gap: bool, started: bool)
    requires ReadsAs(x, text) && (gap ==> started)
    ensures |text| <= |x|
    ensures Tokens((if gap then " " else "") + text + x[|text|..], false, started) ==
            [Token(gap, text)] + Tokens(x[|text|..], false, true)
  {
    ReadsAsStart(x, text);
    BlankIsSpace();
    hide *;
    var y := x[|text|..];
    if gap {
      var z := " " + text + y;
      assert z == " " + x && z[0] == ' ' && z[1..] == x;
      BlankIsNoLiteral(z);
      TokensStep(z, false, true);
      TokensStep(x, true, true);
    } else {
      assert "" + text + y == x;
      TokensStep(x, false, started);
    }
  }

  lemma ReadsAsStart(x: string, text: string)
    requires ReadsAs(x, text)
    ensures |text| <= |x| && x == text + x[|text|..]
    ensures PieceLen(x) == |text| && Piece(x) == text && (LiteralLen(x).Some? || !IsSpace(x[0]))
  {
    PieceIs(x);
    assert x == x[..|text|] + x[|text|..];
  }

  lemma BlankIsNoLiteral(z: string)
    requires z != "" && IsSpace(z[0])
    ensures LiteralLen(z) == None
  {
  }

  // ----- When it does not -----

  lemma LongLiteral(x: string)
    requires x != "" && LiteralLen(x).Some? && x[0] != '"'
    ensures LiteralLen(x).value >= 2
  {
    LiteralByFirst(x);
    if x[0] != '\'' {
      ClosesInsideRest(x);
      PrefixedLiteral(x);
      assert x[..WordLen(x)] != "";
    }
    hide LiteralLen, Find;
  }

  /** A line comment swallows what follows it in the normal form. */
  lemma LineSwallows(s: string)
    requires s != "" && LiteralLen(s) == None && CommentLen(s).Some? && s[1] == '/'
    requires Normalised(s[PieceLen(s)..], false, true) != ""
    ensures Piece(Respelt(s)) != Piece(s)
  {
    hide *;
    var n := PieceLen(s);
    var z, y, x, rest := Piece(s), Normalised(s[n..], false, true), Respelt(s), Tokens(s[n..], false, true);
    PieceIs(s);
    CommentMeets(s);
    RespeltIs(s);
    SlashLine(s);
    LineText(s);
    NormalFormSpells(s[n..], false, true);
    TokensStart(s[n..], false, true);
    SpeltStarts(rest);
    GapAfterLine(s);
    BlankIsSpace();
    assert rest[0] in rest && rest[0].gap;
    assert y[1] == y[..2][1];
    SlashIsNoLiteralAt(x);
    PieceIs(x);
    var m := PieceLen(x);
    SlashLine(x);
    LongerLine(z, y, m);
    CollapseKeepsVisible(x[..m], false, false);
    VisibleConcat(z, y[..m - |z|]);
    assert x[..m] == z + y[..m - |z|];
    SomeVisible(y[..m - |z|]);
  }

  lemma SlashIsNoLiteralAt(x: string)
    requires |x| >= 2 && x[0] == '/'
    ensures LiteralLen(x) == None
  {
    SlashIsNoLiteral(x);
  }

  lemma SlashLine(s: string)
    requires |s| >= 2 && s[0] == '/' && s[1] == '/'
    ensures CommentLen(s).Some? && CommentLen(s).value <= |s|
    ensures var n := CommentLen(s).value; 2 <= n && (n < |s| ==> s[n] == '\n')
  {
    LineLength(s);
    hide Find;
  }

  lemma LineText(s: string)
    requires |s| >= 2 && s[0] == '/' && s[1] == '/' && LiteralLen(s) == None
    ensures var z := Piece(s); |z| >= 2 && z[0] == '/' && z[1] == '/' && '\n' !in z
  {
    LineAlone(s);
    PieceIs(s);
    CollapsedLines(s[..PieceLen(s)], false, false);
    hide LiteralLen, CommentLen, Piece, PieceLen, Collapse;
    assert Piece(s)[..2] == "//";
    assert Piece(s)[0] == Piece(s)[..2][0] && Piece(s)[1] == Piece(s)[..2][1];
  }

  lemma GapAfterLine(s: string)
    requires |s| >= 2 && s[0] == '/' && s[1] == '/' && LiteralLen(s) == None
    requires Normalised(s[PieceLen(s)..], false, true) != ""
    ensures Normalised(s[PieceLen(s)..], false, true)[0] == ' '
  {
    PieceIs(s);
    SlashLine(s);
    NormalisedNothing();
    var rest := s[PieceLen(s)..];
    assert IsSpace('\n');
    assert rest != "" ==> LiteralLen(rest) == None;
    hide LiteralLen, CommentLen, Piece, PieceLen, Normalised, IsSpace;
    NormalisedStep(rest, false, true);
    GapStarts(rest[1..]);
  }

  /** A line that goes on behind a collapsed comment does not end before the next token does start. */
  lemma LongerLine(z: string, y: string, m: nat)
    requires '\n' !in z && |y| >= 2 && y[0] == ' ' && !IsSpace(y[1])
    requires m <= |z + y| && (m < |z + y| ==> (z + y)[m] == '\n')
    ensures m >= |z| + 2
  {
    assert IsSpace('\n');
    hide IsSpace;
    assert forall k :: 0 <= k < |z| ==> z[k] in z;
  }

  lemma SomeVisible(u: string)
    requires |u| >= 2 && !IsSpace(u[1])
    ensures Visible(u) != ""
  {
    hide IsSpace;
  }

  /** Two loose quotes become a char literal. */
  lemma QuotesJoin(s: string)
    requires At(s, 0, '\'') && LiteralLen(s) == None
    requires var y := Normalised(s[1..], false, true); At(y, 0, ' ') && At(y, 1, '\'')
    ensures Piece(Respelt(s)) != Piece(s)
  {
    assert CommentLen(s) == None;
    PieceIs(s);
    var x := Respelt(s);
    LiteralByFirst(x);
    PieceIs(x);
    assert CharLen(x) == Some(3);
    hide LiteralLen, CommentLen, Piece, PieceLen, Normalised;
  }

  /** A single character that is not read again as it is is read as part of something longer. */
  lemma CharGrows(s: string)
    requires s != "" && !IsSpace(s[0]) && LiteralLen(s) == None && CommentLen(s) == None
    ensures ReadsAs(Respelt(s), Piece(s)) || Piece(Respelt(s)) != Piece(s)
  {
    PieceIs(s);
    LiteralByFirst(s);
    var x := Respelt(s);
    PieceIs(x);
    hide LiteralLen, CommentLen, Piece, PieceLen, Normalised, IsSpace, Collapse;
    if LiteralLen(x).Some? {
      LongLiteral(x);
    } else if CommentLen(x).Some? {
      CommentMeets(x);
      CommentStart(x, PieceLen(x));
    }
  }

  /** A piece that is not read again as it is, or should not be followed by what follows it, changes. */
  lemma HeadGrows(s: string, head: Token, rest: seq<Token>)
    requires s != "" && (LiteralLen(s).Some? || !IsSpace(s[0])) && head.text == Piece(s)
    requires rest == Tokens(s[PieceLen(s)..], false, true) && Piece(Respelt(s)) == Piece(s)
    ensures ReadsAs(Respelt(s), Piece(s))
    ensures rest != [] ==> !IsLineComment(head) && !LooseQuotes(head, rest[0])
  {
    hide *;
    PieceIs(s);
    HeadKind(head);
    NormalFormSpells(s[PieceLen(s)..], false, true);
    TokensStart(s[PieceLen(s)..], false, true);
    SpeltStarts(rest);
    if LiteralLen(s).Some? {
      RereadLiteral(s);
      if s[0] != '"' {
        LongLiteral(s);
      }
      LiteralIsNoLine(s);
    } else if CommentLen(s).Some? {
      CommentMeets(s);
      CommentText(s);
      if s[1] == '/' && rest != [] {
        LineSwallows(s);
      }
      RereadComment(s);
    } else {
      CharGrows(s);
      if rest != [] {
        LooseIs(head, rest[0]);
        if LooseQuotes(head, rest[0]) {
          var y := Spelt(rest);
          assert y[0] == y[..2][0] && y[1] == y[..2][1];
          AtIs(rest[0].text, 0, '\'');
          AtIs(y, 0, ' ');
          AtIs(y, 1, '\'');
          AtIs(s, 0, '\'');
          QuotesJoin(s);
        }
      }
    }
    if rest != [] {
      LooseIs(head, rest[0]);
    }
  }

  lemma HeadKind(head: Token)
    ensures IsLineComment(head) ==> |head.text| >= 2 && head.text[0] == '/' && head.text[1] == '/'
  {
    assert IsLineComment(head) ==> head.text[..2][0] == '/' && head.text[..2][1] == '/';
  }

  lemma LiteralIsNoLine(s: string)
    requires s != "" && LiteralLen(s).Some?
    ensures s[0] != '/'
  {
  }

  lemma CommentText(s: string)
    requires s != "" && LiteralLen(s) == None && CommentLen(s).Some?
    ensures |s| >= 2 && |Piece(s)| >= 2 && Piece(s)[0] == '/' && Piece(s)[1] == s[1]
  {
    PieceIs(s);
    CommentMeets(s);
    CommentStart(s, PieceLen(s));
    hide LiteralLen, CommentLen, Piece, PieceLen, Collapse, Normalised;
  }

  /** Text whose normal form gives its tokens back is faithful. */
  lemma {:induction false} RereadIsFaithful(s: string, pending: bool, started: bool)
    requires Tokens(Spelt(Tokens(s, pending, started)), false, started) == Tokens(s, pending, started)
    ensures Faithful(Tokens(s, pending, started))
    decreases |s|
  {
    hide *;
    TokensStep(s, pending, started);
    if s == "" {
      NothingIsFaithful();
    } else if LiteralLen(s).None? && IsSpace(s[0]) {
      RereadIsFaithful(s[1..], true, started);
    } else {
      var gap, rest := pending && started, s[PieceLen(s)..];
      var head, ts := Token(gap, Piece(s)), Tokens(rest, false, true);
      var x := Respelt(s);
      NormalFormSpells(rest, false, true);
      RespeltIs(s);
      SpeltStep(head, ts);
      PieceStarts(s);
      var spelt := (if gap then " " else "") + x;
      assert Spelt([head] + ts) == spelt;
      FirstPiece(x, gap, started);
      assert ([head] + ts)[0] == head;
      HeadGrows(s, head, ts);
      SpeltTokens(x, Piece(s), gap, started);
      ReadsAsStart(x, Piece(s));
      assert x[|Piece(s)|..] == Spelt(ts);
      assert ([head] + ts)[1..] == ts && ([head] + Tokens(Spelt(ts), false, true))[1..] == Tokens(Spelt(ts), false, true);
      RereadIsFaithful(rest, false, true);
      FaithfulTail(head, ts);
    }
  }

  lemma NothingIsFaithful()
    ensures Faithful([])
  {
  }

  lemma FirstPiece(x: string, gap: bool, started: bool)
    requires x != "" && !IsSpace(x[0]) && (gap ==> started)
    ensures var ts := Tokens((if gap then " " else "") + x, false, started); ts != [] && ts[0].text == Piece(x)
  {
    BlankIsSpace();
    hide *;
    if gap {
      var z := " " + x;
      assert z[0] == ' ' && z[1..] == x;
      BlankIsNoLiteral(z);
      TokensStep(z, false, true);
      TokensStep(x, true, true);
    } else {
      assert "" + x == x;
      TokensStep(x, false, started);
    }
  }

  // ----- The theorem -----

  /** The normal form of a text, read again, gives the tokens of the text if and only if no line comment
      in it is followed by a token, and no lone quote by blanks and a quote. */
  lemma NormalFormIsFaithful(s: string)
    ensures TokensOf(Normalise(s)) == TokensOf(s) <==> Faithful(TokensOf(s))
  {
    hide Tokens, Spelt, Faithful, Normalised;
    NormalFormSpells(s, false, false);
    if Faithful(TokensOf(s)) {
      FaithfulIsReread(s, false, false);
    }
    if TokensOf(Normalise(s)) == TokensOf(s) {
      RereadIsFaithful(s, false, false);
    }
  }

  /** Among such texts the normal form fixes the tokens, blanks inside literals included. */
  lemma NormalFormFixesTokens(a: string, b: string)
    requires Faithful(TokensOf(a)) && Faithful(TokensOf(b))
    ensures Normalise(a) == Normalise(b) <==> TokensOf(a) == TokensOf(b)
  {
    hide TokensOf, Faithful, Normalise;
    NormalFormIsFaithful(a);
    NormalFormIsFaithful(b);
    SpeltIs(a);
    SpeltIs(b);
  }

  // ----- Texts with the same normal form -----

  lemma LineCommentsStep(head: Token, rest: seq<Token>)
    ensures LineComments([head] + rest) ==
            (if IsLineComment(head) then [head.text] else []) + LineComments(rest)
  {
    assert ([head] + rest)[1..] == rest;
  }

  /** Behind equal gaps stand equal texts. */
  lemma SameGaps(a: Token, b: Token, x: string, y: string)
    requires x != "" && y != "" && x[0] != ' ' && y[0] != ' '
    requires (if a.gap then " " else "") + x == (if b.gap then " " else "") + y
    ensures a.gap == b.gap && x == y
  {
    var s := (if a.gap then " " else "") + x;
    assert s == (if b.gap then " " else "") + y;
    assert a.gap ==> s[0] == ' ' && s[1..] == x;
    assert b.gap ==> s[0] == ' ' && s[1..] == y;
    assert !a.gap ==> s == x;
    assert !b.gap ==> s == y;
  }

  /** A piece read as it is from a text that starts with a line comment is a line comment. */
  lemma LinesMeet(x: string, line: Token, other: Token)
    requires line.text <= x && IsLineComment(line) && ReadsAs(x, other.text)
    ensures IsLineComment(other)
  {
    HeadKind(line);
    assert x[0] == line.text[0] && x[1] == line.text[1];
    SlashIsNoLiteralAt(x);
    PieceIs(x);
    SlashLine(x);
    LineText(x);
    hide LiteralLen, CommentLen, Piece, PieceLen;
    assert other.text[..2] == "//";
  }

  /** The step of the proof below for two heads that stand before the same text. */
  lemma SameHeads(x: string, head: Token, other: Token, rest: seq<Token>, left: seq<Token>)
    requires head.text <= x && other.text <= x
    requires IsLineComment(head) || ReadsAs(x, head.text)
    requires IsLineComment(other) || ReadsAs(x, other.text)
    requires LineComments([head] + rest) == LineComments([other] + left)
    ensures head.text == other.text && LineComments(rest) == LineComments(left)
  {
    hide *;
    LineCommentsStep(head, rest);
    LineCommentsStep(other, left);
    if IsLineComment(head) && !IsLineComment(other) {
      LinesMeet(x, head, other);
    } else if IsLineComment(other) && !IsLineComment(head) {
      LinesMeet(x, other, head);
    } else if IsLineComment(head) {
      SameFirst(head.text, other.text, LineComments(rest), LineComments(left));
    } else {
      ReadsAlike(x, head.text, other.text);
      assert [] + LineComments(rest) == LineComments(rest) && [] + LineComments(left) == LineComments(left);
    }
  }

  lemma SameFirst(a: string, b: string, x: seq<string>, y: seq<string>)
    requires [a] + x == [b] + y
    ensures a == b && x == y
  {
    assert ([a] + x)[0] == a && ([b] + y)[0] == b;
    assert ([a] + x)[1..] == x && ([b] + y)[1..] == y;
  }

  lemma ReadsAlike(x: string, a: string, b: string)
    requires ReadsAs(x, a) && ReadsAs(x, b)
    ensures a == b
  {
  }

  lemma HeadOf(s: string, pending: bool, started: bool)
    requires s != "" && (LiteralLen(s).Some? || !IsSpace(s[0])) && Tight(Tokens(s, pending, started))
    ensures var head, rest := Token(pending && started, Piece(s)), Tokens(s[PieceLen(s)..], false, true);
            && Tokens(s, pending, started) == [head] + rest && Tight(rest)
            && Spelt([head] + rest) == (if head.gap then " " else "") + Respelt(s)
            && Respelt(s) == head.text + Spelt(rest) && head.text != "" && Respelt(s)[0] != ' '
            && (rest != [] ==> IsLineComment(head) || ReadsAs(Respelt(s), head.text))
            && (rest == [] ==> ReadsAs(Respelt(s), head.text))
  {
    hide *;
    var head, rest := Token(pending && started, Piece(s)), Tokens(s[PieceLen(s)..], false, true);
    TokensStep(s, pending, started);
    TightTail(head, rest);
    NormalFormSpells(s[PieceLen(s)..], false, true);
    RespeltIs(s);
    SpeltStep(head, rest);
    PieceStarts(s);
    BlankIsSpace();
    if rest == [] || !IsLineComment(head) {
      RereadPiece(s, pending, started);
    }
  }

  lemma {:induction false} SameLines(s: string, sPending: bool, t: string, tPending: bool, started: bool)
    requires Tight(Tokens(s, sPending, started)) && Tight(Tokens(t, tPending, started))
    requires Spelt(Tokens(s, sPending, started)) == Spelt(Tokens(t, tPending, started))
    requires LineComments(Tokens(s, sPending, started)) == LineComments(Tokens(t, tPending, started))
    ensures Tokens(s, sPending, started) == Tokens(t, tPending, started)
    decreases |s| + |t|
  {
    hide *;
    TokensStep(s, sPending, started);
    TokensStep(t, tPending, started);
    NothingSpelt(started);
    if s != "" && LiteralLen(s).None? && IsSpace(s[0]) {
      SameLines(s[1..], true, t, tPending, started);
    } else if t != "" && LiteralLen(t).None? && IsSpace(t[0]) {
      SameLines(s, sPending, t[1..], true, started);
    } else if s == "" || t == "" {
      if s != "" {
        HeadOf(s, sPending, started);
      }
      if t != "" {
        HeadOf(t, tPending, started);
      }
    } else {
      HeadOf(s, sPending, started);
      HeadOf(t, tPending, started);
      var head, rest := Token(sPending && started, Piece(s)), Tokens(s[PieceLen(s)..], false, true);
      var other, left := Token(tPending && started, Piece(t)), Tokens(t[PieceLen(t)..], false, true);
      SameGaps(head, other, Respelt(s), Respelt(t));
      SameHeads(Respelt(s), head, other, rest, left);
      SameRests(head.text, Spelt(rest), Spelt(left));
      SameLines(s[PieceLen(s)..], false, t[PieceLen(t)..], false, true);
    }
  }

  lemma SameRests(text: string, x: string, y: string)
    requires text + x == text + y
    ensures x == y
  {
    assert (text + x)[|text|..] == x && (text + y)[|text|..] == y;
  }

  /** Texts with one normal form have the same tokens if and only if they have the same line comments. */
  lemma SameNormalForm(a: string, b: string)
    requires Tight(TokensOf(a)) && Tight(TokensOf(b))
    ensures TokensOf(a) == TokensOf(b) <==>
            Normalise(a) == Normalise(b) && LineComments(TokensOf(a)) == LineComments(TokensOf(b))
  {
    hide Tokens, Tight, Spelt, LineComments, Normalised;
    SpeltIs(a);
    SpeltIs(b);
    if Normalise(a) == Normalise(b) && LineComments(TokensOf(a)) == LineComments(TokensOf(b)) {
      SameLines(a, false, b, false, false);
    }
  }

  lemma SpeltIs(s: string)
    ensures Spelt(TokensOf(s)) == Normalise(s)
  {
    NormalFormSpells(s, false, false);
  }
}
