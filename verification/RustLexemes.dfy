/** The lexical layer of scripts/check_moved_fn_bodies.py.
    Each function looks only at the text that remains and returns a length, so that what a lexeme is
    does not depend on where it stands in the file. */
module RustLexemes {
  import opened Prelude

  /** Offset of the closing quote in the text after an opening quote; past the end when there is none. */
  function QuoteAt(s: string): (n: nat)
    ensures n <= |s| + 1
    ensures n < |s| ==> s[n] == '"'
  {
    if s == "" || s[0] == '"' then 0
    else if s[0] != '\\' then 1 + QuoteAt(s[1..])
    else if |s| == 1 then 2
    else 2 + QuoteAt(s[2..])
  }

  function StringLen(s: string): (n: nat)
    requires s != ""
    ensures 0 < n <= |s|
  {
    var j := 1 + QuoteAt(s[1..]);
    if j < |s| then j + 1 else |s|
  }

  function Hashes(s: string): (n: nat)
    ensures n <= |s|
    ensures forall k :: 0 <= k < n ==> s[k] == '#'
    ensures !At(s, n, '#')
  {
    if At(s, 0, '#') then 1 + Hashes(s[1..]) else 0
  }

  function RawClose(hashes: nat): (r: string)
    ensures |r| == hashes + 1
  {
    "\"" + seq(hashes, _ => '#')
  }

  function RawLen(s: string): (r: Option<nat>)
    ensures r.Some? ==> 0 < r.value <= |s|
  {
    var h := Hashes(s);
    if !At(s, h, '"') then None
    else
      match Find(s[h + 1..], RawClose(h))
      case None => Some(|s|)
      case Some(k) => Some(h + 1 + k + |RawClose(h)|)
  }

  /** Length of the char literal, or None for a lifetime. */
  function CharLen(s: string): (r: Option<nat>)
    requires s != ""
    ensures r.Some? ==> 0 < r.value <= |s|
  {
    if At(s, 1, '\\') then
      match Find(Drop(s, 3), "'")
      case None => Some(|s|)
      case Some(k) => Some(3 + k + 1)
    else if At(s, 2, '\'') then Some(3)
    else None
  }

  /** Length of a block comment from inside it, `depth` levels deep. */
  function BlockLen(depth: nat, s: string): (n: nat)
    ensures n <= |s|
    decreases |s|
  {
    if depth == 0 || s == "" then 0
    else if At(s, 0, '/') && At(s, 1, '*') then 2 + BlockLen(depth + 1, s[2..])
    else if At(s, 0, '*') && At(s, 1, '/') then 2 + BlockLen(depth - 1, s[2..])
    else 1 + BlockLen(depth, s[1..])
  }

  function CommentLen(s: string): (r: Option<nat>)
    ensures r.Some? ==> 0 < r.value <= |s| && s[0] == '/'
  {
    if At(s, 0, '/') && At(s, 1, '/') then
      match Find(s, "\n")
      case None => Some(|s|)
      case Some(k) => assert HasPrefix(s[k..], "\n"); assert s[k..][..1] == "\n"; assert s[k] == '\n'; Some(k)
    else if At(s, 0, '/') && At(s, 1, '*') then Some(2 + BlockLen(1, s[2..]))
    else None
  }

  predicate IsWordStart(c: char) {
    'A' <= c <= 'Z' || 'a' <= c <= 'z' || c == '_'
  }

  predicate IsWordChar(c: char) {
    IsWordStart(c) || '0' <= c <= '9'
  }

  function WordRun(s: string): (n: nat)
    ensures n <= |s|
    ensures forall k :: 0 <= k < n ==> IsWordChar(s[k])
    ensures n < |s| ==> !IsWordChar(s[n])
  {
    if s != "" && IsWordChar(s[0]) then 1 + WordRun(s[1..]) else 0
  }

  /** Length of the identifier the text starts with, 0 when it starts with none. */
  function WordLen(s: string): (n: nat)
    ensures n <= |s|
  {
    if s != "" && IsWordStart(s[0]) then 1 + WordRun(s[1..]) else 0
  }

  function Shift(r: Option<nat>, k: nat): Option<nat> {
    match r
    case None => None
    case Some(n) => Some(n + k)
  }

  function LiteralLen(s: string): (r: Option<nat>)
    requires s != ""
    ensures r.Some? ==> 0 < r.value <= |s| && s[0] != '/' && !IsSpace(s[0])
  {
    if s[0] == '"' then Some(StringLen(s))
    else if s[0] == '\'' then CharLen(s)
    else
      var w := s[..WordLen(s)];
      var rest := s[WordLen(s)..];
      if w != "r" && w != "b" && w != "br" && w != "c" && w != "cr" then None
      else if w[|w| - 1] == 'r' then Shift(RawLen(rest), |w|)
      else if At(rest, 0, '"') then Some(|w| + StringLen(rest))
      else if w == "b" && At(rest, 0, '\'') then Shift(CharLen(rest), |w|)
      else None
  }

  /** Length of the comment or literal the text starts with, 0 when it starts with none. */
  function SkipLen(s: string): (n: nat)
    requires s != ""
    ensures n <= |s|
  {
    match CommentLen(s)
    case Some(n) => n
    case None =>
      match LiteralLen(s)
      case Some(n) => n
      case None => 0
  }

  /** Length up to and including the bracket that brings `depth` back to zero. */
  function MatchLen(s: string, open: char, close: char, depth: int): (n: nat)
    ensures n <= |s|
    decreases |s|
  {
    if s == "" then 0
    else
      var k := SkipLen(s);
      if k != 0 then k + MatchLen(s[k..], open, close, depth)
      else if s[0] == open then 1 + MatchLen(s[1..], open, close, depth + 1)
      else if s[0] != close then 1 + MatchLen(s[1..], open, close, depth)
      else if depth == 1 then 1
      else 1 + MatchLen(s[1..], open, close, depth - 1)
  }

  /** The counters of the body search. */
  datatype Nesting = Nesting(depth: int, nest: int, isOpen: bool) {
    function After(c: char): Nesting {
      if c == '{' then Nesting(depth + 1, nest, true)
      else if c == '}' then this.(depth := depth - 1)
      else if !isOpen && (c == '(' || c == '[') then this.(nest := nest + 1)
      else if !isOpen && (c == ')' || c == ']') then this.(nest := nest - 1)
      else this
    }

    predicate EndsDeclaration(c: char) {
      c == ';' && !isOpen && nest == 0
    }

    predicate Closed() {
      isOpen && depth == 0
    }
  }

  const OUTSIDE := Nesting(0, 0, false)

  /** Length from the end of a function's name to the end of its body, or to the `;` of a declaration. */
  function BodyLen(s: string, at: Nesting): (n: nat)
    ensures n <= |s|
    decreases |s|
  {
    if s == "" then 0
    else
      var k := SkipLen(s);
      if k != 0 then k + BodyLen(s[k..], at)
      else if at.EndsDeclaration(s[0]) then 0
      else if at.After(s[0]).Closed() then 1
      else 1 + BodyLen(s[1..], at.After(s[0]))
  }

  // ----- What a closed lexeme is does not depend on what follows it -----

  /** The text ends with a line break that a char literal cannot reach across. */
  predicate EndsCleanly(s: string) {
    s != "" && s[|s| - 1] == '\n' && (|s| >= 2 ==> s[|s| - 2] != '\'')
  }

  lemma Cut(s: string, b: string, k: nat)
    requires k <= |s|
    ensures (s + b)[k..] == s[k..] + b
    ensures (s + b)[..k] == s[..k]
    ensures EndsCleanly(s) && k < |s| ==> EndsCleanly(s[k..])
  {
  }

  lemma {:induction false} QuoteLocal(s: string, b: string)
    requires QuoteAt(s) < |s|
    ensures QuoteAt(s + b) == QuoteAt(s)
  {
    if s[0] == '"' {
    } else if s[0] != '\\' {
      Cut(s, b, 1);
      QuoteLocal(s[1..], b);
    } else {
      Cut(s, b, 2);
      QuoteLocal(s[2..], b);
    }
  }

  lemma StringLocal(s: string, b: string)
    requires s != "" && StringLen(s) < |s|
    ensures StringLen(s + b) == StringLen(s)
  {
    Cut(s, b, 1);
    QuoteLocal(s[1..], b);
  }

  lemma {:induction false} HashesLocal(s: string, b: string)
    requires Hashes(s) < |s|
    ensures Hashes(s + b) == Hashes(s)
  {
    if s[0] == '#' {
      Cut(s, b, 1);
      HashesLocal(s[1..], b);
    }
  }

  /** The raw string after its hashes and its opening quote. */
  lemma RawFound(s: string)
    requires At(s, Hashes(s), '"') && Find(s[Hashes(s) + 1..], RawClose(Hashes(s))).Some?
    ensures RawLen(s) == Some(Hashes(s) + 1 + Find(s[Hashes(s) + 1..], RawClose(Hashes(s))).value + |RawClose(Hashes(s))|)
  {
    hide Find, Hashes, RawClose, HasPrefix;
  }

  lemma RawNotFound(s: string)
    requires At(s, Hashes(s), '"') && Find(s[Hashes(s) + 1..], RawClose(Hashes(s))).None?
    ensures RawLen(s) == Some(|s|)
  {
    hide Find, Hashes, RawClose, HasPrefix;
  }

  lemma NotRaw(s: string)
    requires !At(s, Hashes(s), '"')
    ensures RawLen(s) == None
  {
    hide Find, Hashes, RawClose, HasPrefix;
  }

  lemma CloseLocal(s: string, b: string, h: nat)
    requires h < |s| && Find(s[h + 1..], RawClose(h)).Some?
    ensures Find((s + b)[h + 1..], RawClose(h)) == Find(s[h + 1..], RawClose(h))
  {
    hide *;
    Cut(s, b, h + 1);
    FindLocal(s[h + 1..], b, RawClose(h));
  }

  lemma RawLocal(s: string, b: string)
    requires EndsCleanly(s) && (RawLen(s).Some? ==> RawLen(s).value < |s|)
    ensures RawLen(s + b) == RawLen(s)
  {
    hide *;
    HashesEnd(s, b);
    if !At(s, Hashes(s), '"') {
      NotRaw(s);
      NotRaw(s + b);
    } else if Find(s[Hashes(s) + 1..], RawClose(Hashes(s))).None? {
      RawNotFound(s);
    } else {
      RawFound(s);
      CloseLocal(s, b, Hashes(s));
      RawFound(s + b);
    }
  }

  lemma HashesEnd(s: string, b: string)
    requires EndsCleanly(s)
    ensures Hashes(s + b) == Hashes(s) < |s| && (At(s + b, Hashes(s), '"') <==> At(s, Hashes(s), '"'))
  {
    assert s[|s| - 1] != '#';
    HashesLocal(s, b);
    hide Hashes;
  }

  lemma CharLocal(s: string, b: string)
    requires EndsCleanly(s) && s[0] == '\'' && (CharLen(s).Some? ==> CharLen(s).value < |s|)
    ensures CharLen(s + b) == CharLen(s)
  {
    assert |s| >= 3;
    if At(s, 1, '\\') {
      Cut(s, b, 3);
      FindLocal(Drop(s, 3), b, "'");
    }
  }

  lemma {:induction false} BlockLocal(depth: nat, s: string, b: string)
    requires BlockLen(depth, s) < |s|
    ensures BlockLen(depth, s + b) == BlockLen(depth, s)
    decreases |s|
  {
    if depth != 0 {
      if |s| >= 2 {
        Cut(s, b, 2);
        Cut(s, b, 1);
        if At(s, 0, '/') && At(s, 1, '*') {
          BlockLocal(depth + 1, s[2..], b);
        } else if At(s, 0, '*') && At(s, 1, '/') {
          BlockLocal(depth - 1, s[2..], b);
        } else {
          BlockLocal(depth, s[1..], b);
        }
      }
    }
  }

  lemma CommentLocal(s: string, b: string)
    requires EndsCleanly(s) && (CommentLen(s).Some? ==> CommentLen(s).value < |s|)
    ensures CommentLen(s + b) == CommentLen(s)
  {
    if At(s, 0, '/') && At(s, 1, '/') {
      FindLocal(s, b, "\n");
    } else if At(s, 0, '/') && At(s, 1, '*') {
      Cut(s, b, 2);
      BlockLocal(1, s[2..], b);
    }
  }

  lemma {:induction false} WordRunLocal(s: string, b: string)
    requires s != "" && !IsWordChar(s[|s| - 1])
    ensures WordRun(s + b) == WordRun(s) < |s|
  {
    if IsWordChar(s[0]) {
      Cut(s, b, 1);
      WordRunLocal(s[1..], b);
    }
  }

  lemma WordLocal(s: string, b: string)
    requires EndsCleanly(s)
    ensures WordLen(s + b) == WordLen(s) < |s|
    ensures (s + b)[..WordLen(s)] == s[..WordLen(s)]
  {
    if IsWordStart(s[0]) {
      Cut(s, b, 1);
      WordRunLocal(s[1..], b);
    }
  }

  lemma LiteralLocal(s: string, b: string)
    requires EndsCleanly(s) && (LiteralLen(s).Some? ==> LiteralLen(s).value < |s|)
    ensures LiteralLen(s + b) == LiteralLen(s)
  {
    if s[0] == '"' {
      StringLocal(s, b);
    } else if s[0] == '\'' {
      CharLocal(s, b);
    } else {
      WordLocal(s, b);
      var n := WordLen(s);
      var w, rest := s[..n], s[n..];
      Cut(s, b, n);
      if w == "r" || w == "br" || w == "cr" {
        RawLocal(rest, b);
      } else if (w == "b" || w == "c") && rest[0] == '"' {
        StringLocal(rest, b);
      } else if w == "b" && rest[0] == '\'' {
        CharLocal(rest, b);
      }
    }
  }

  lemma SkipLocal(s: string, b: string)
    requires EndsCleanly(s) && SkipLen(s) < |s|
    ensures SkipLen(s + b) == SkipLen(s)
  {
    CommentLocal(s, b);
    if CommentLen(s).None? {
      LiteralLocal(s, b);
    }
  }

  lemma MatchStep(s: string, open: char, close: char, depth: int)
    requires s != ""
    ensures var k := SkipLen(s);
            MatchLen(s, open, close, depth) ==
            if k != 0 then k + MatchLen(s[k..], open, close, depth)
            else if s[0] == open then 1 + MatchLen(s[1..], open, close, depth + 1)
            else if s[0] != close then 1 + MatchLen(s[1..], open, close, depth)
            else if depth == 1 then 1
            else 1 + MatchLen(s[1..], open, close, depth - 1)
  {
    hide SkipLen;
  }

  lemma {:induction false} MatchLocal(s: string, b: string, open: char, close: char, depth: int)
    requires EndsCleanly(s) && MatchLen(s, open, close, depth) < |s|
    ensures MatchLen(s + b, open, close, depth) == MatchLen(s, open, close, depth)
    decreases |s|
  {
    hide *;
    MatchStep(s, open, close, depth);
    MatchStep(s + b, open, close, depth);
    SkipLocal(s, b);
    var k := SkipLen(s);
    Cut(s, b, k);
    Cut(s, b, 1);
    assert (s + b)[0] == s[0];
    if k != 0 {
      MatchLocal(s[k..], b, open, close, depth);
    } else if s[0] == open {
      MatchLocal(s[1..], b, open, close, depth + 1);
    } else if s[0] != close {
      MatchLocal(s[1..], b, open, close, depth);
    } else if depth != 1 {
      MatchLocal(s[1..], b, open, close, depth - 1);
    }
  }

  lemma BodyStep(s: string, at: Nesting)
    requires s != ""
    ensures var k := SkipLen(s);
            BodyLen(s, at) ==
            if k != 0 then k + BodyLen(s[k..], at)
            else if at.EndsDeclaration(s[0]) then 0
            else if at.After(s[0]).Closed() then 1
            else 1 + BodyLen(s[1..], at.After(s[0]))
  {
    hide SkipLen;
  }

  lemma {:induction false} BodyLocal(s: string, b: string, at: Nesting)
    requires EndsCleanly(s) && BodyLen(s, at) < |s|
    ensures BodyLen(s + b, at) == BodyLen(s, at)
    decreases |s|
  {
    SkipLocal(s, b);
    var k := SkipLen(s);
    Cut(s, b, k);
    Cut(s, b, 1);
    if k != 0 {
      BodyLocal(s[k..], b, at);
    } else if !at.EndsDeclaration(s[0]) && !at.After(s[0]).Closed() {
      BodyLocal(s[1..], b, at.After(s[0]));
    }
  }

  lemma {:induction false} SpacesLocal(s: string, b: string)
    requires Spaces(s) < |s|
    ensures Spaces(s + b) == Spaces(s)
  {
    if IsSpace(s[0]) {
      Cut(s, b, 1);
      SpacesLocal(s[1..], b);
    }
  }
}
