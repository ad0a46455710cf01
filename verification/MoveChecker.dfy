/** scripts/check_moved_fn_bodies.py in its own form: loops over an index into the file.
    Every loop is proved to compute what `RustLexemes` and `FnBodies` define on the remaining text. */
module MoveChecker {
  import opened Prelude
  import opened RustLexemes
  import opened MultisetSums
  import opened FnBodies

  function Ahead(i: nat, r: Option<nat>): Option<nat> {
    Shift(r, i)
  }

  /** The steps of the recursive definitions, at an index into the text. */
  lemma QuoteStep(text: string, j: nat)
    requires j <= |text|
    ensures j == |text| || text[j] == '"' ==> QuoteAt(text[j..]) == 0
    ensures j < |text| && text[j] != '"' ==>
              var next := j + if text[j] == '\\' then 2 else 1;
              j + QuoteAt(text[j..]) == if next <= |text| then next + QuoteAt(text[next..]) else next
  {
    if j < |text| {
      assert text[j..][1..] == text[j + 1..];
    }
    if j + 2 <= |text| {
      assert text[j..][2..] == text[j + 2..];
    }
  }

  lemma StringStep(text: string, i: nat)
    requires i < |text|
    ensures var j := i + 1 + QuoteAt(text[i + 1..]);
            i + StringLen(text[i..]) == if j + 1 < |text| then j + 1 else |text|
  {
    assert text[i..][1..] == text[i + 1..];
  }

  method StringEnd(text: string, i: nat) returns (r: nat)
    requires i < |text|
    ensures r == i + StringLen(text[i..]) && i < r <= |text|
  {
    hide *;
    var j := i + 1;
    ghost var whole := i + 1 + QuoteAt(text[i + 1..]);
    StringStep(text, i);
    while j < |text| && text[j] != '"'
      invariant i + 1 <= j <= |text| + 1
      invariant j <= |text| ==> j + QuoteAt(text[j..]) == whole
      invariant j > |text| ==> j == whole
    {
      QuoteStep(text, j);
      j := j + if text[j] == '\\' then 2 else 1;
    }
    if j <= |text| {
      QuoteStep(text, j);
    }
    r := if j + 1 < |text| then j + 1 else |text|;
  }

  method RawEnd(text: string, i: nat) returns (r: Option<nat>)
    requires i <= |text|
    ensures r == Ahead(i, RawLen(text[i..]))
  {
    var hashes := 0;
    while i + hashes < |text| && text[i + hashes] == '#'
      invariant i + hashes <= |text|
      invariant hashes + Hashes(text[i + hashes..]) == Hashes(text[i..])
    {
      assert text[i + hashes..][1..] == text[i + hashes + 1..];
      hashes := hashes + 1;
    }
    assert hashes == Hashes(text[i..]);
    if !At(text, i + hashes, '"') {
      return None;
    }
    assert text[i..][hashes + 1..] == text[i + hashes + 1..];
    var end := Find(text[i + hashes + 1..], RawClose(hashes));
    r := match end
         case None => Some(|text|)
         case Some(k) => Some(i + hashes + 1 + k + |RawClose(hashes)|);
  }

  method CharEnd(text: string, i: nat) returns (r: Option<nat>)
    requires i < |text|
    ensures r == Ahead(i, CharLen(text[i..]))
  {
    assert Drop(text[i..], 3) == Drop(text, i + 3);
    if At(text, i + 1, '\\') {
      var end := Find(Drop(text, i + 3), "'");
      return match end
             case None => Some(|text|)
             case Some(k) => Some(i + 3 + k + 1);
    }
    r := if At(text, i + 2, '\'') then Some(i + 3) else None;
  }

  lemma BlockStep(depth: nat, text: string, j: nat)
    requires j <= |text|
    ensures depth == 0 || j == |text| ==> BlockLen(depth, text[j..]) == 0
    ensures depth != 0 && j < |text| ==>
              j + BlockLen(depth, text[j..]) ==
              if At(text, j, '/') && At(text, j + 1, '*') then j + 2 + BlockLen(depth + 1, text[j + 2..])
              else if At(text, j, '*') && At(text, j + 1, '/') then j + 2 + BlockLen(depth - 1, text[j + 2..])
              else j + 1 + BlockLen(depth, text[j + 1..])
  {
    if j < |text| {
      assert text[j..][1..] == text[j + 1..];
    }
    if j + 2 <= |text| {
      assert text[j..][2..] == text[j + 2..];
    }
  }

  method BlockEnd(text: string, start: nat) returns (j: nat)
    requires start <= |text|
    ensures j == start + BlockLen(1, text[start..]) && j <= |text|
  {
    hide BlockLen;
    var depth: nat := 1;
    j := start;
    while j < |text| && depth != 0
      invariant start <= j <= |text|
      invariant j + BlockLen(depth, text[j..]) == start + BlockLen(1, text[start..])
      decreases |text| - j
    {
      BlockStep(depth, text, j);
      if At(text, j, '/') && At(text, j + 1, '*') {
        depth, j := depth + 1, j + 2;
      } else if At(text, j, '*') && At(text, j + 1, '/') {
        depth, j := depth - 1, j + 2;
      } else {
        j := j + 1;
      }
    }
    BlockStep(depth, text, j);
  }

  method CommentEnd(text: string, i: nat) returns (r: Option<nat>)
    requires i <= |text|
    ensures r == Ahead(i, CommentLen(text[i..]))
  {
    hide BlockLen, Find;
    if At(text, i, '/') && At(text, i + 1, '/') {
      var end := Find(text[i..], "\n");
      return match end
             case None => Some(|text|)
             case Some(k) => Some(i + k);
    }
    if !(At(text, i, '/') && At(text, i + 1, '*')) {
      return None;
    }
    assert text[i..][2..] == text[i + 2..];
    var end := BlockEnd(text, i + 2);
    r := Some(end);
  }

  method LiteralEnd(text: string, i: nat) returns (r: Option<nat>)
    requires i < |text|
    ensures r == Ahead(i, LiteralLen(text[i..]))
  {
    hide StringLen, RawLen, CharLen, WordLen;
    var rest := text[i..];
    if text[i] == '"' {
      var end := StringEnd(text, i);
      return Some(end);
    }
    if text[i] == '\'' {
      r := CharEnd(text, i);
      return;
    }
    var prefix, next := rest[..WordLen(rest)], i + WordLen(rest);
    assert rest[WordLen(rest)..] == text[next..];
    if prefix != "r" && prefix != "b" && prefix != "br" && prefix != "c" && prefix != "cr" {
      return None;
    }
    if prefix[|prefix| - 1] == 'r' {
      r := RawEnd(text, next);
    } else if At(text, next, '"') {
      var end := StringEnd(text, next);
      r := Some(end);
    } else if prefix == "b" && At(text, next, '\'') {
      r := CharEnd(text, next);
    } else {
      r := None;
    }
  }

  /** Strictly ahead of `i` at a comment or a literal, `i` elsewhere, and never past the end. */
  method Skip(text: string, i: nat) returns (r: nat)
    requires i < |text|
    ensures r == i + SkipLen(text[i..]) && i <= r <= |text|
  {
    var end := CommentEnd(text, i);
    if end == None {
      end := LiteralEnd(text, i);
    }
    r := match end
         case None => i
         case Some(k) => k;
  }

  method Matching(text: string, start: nat, open: char, close: char) returns (i: nat)
    requires start <= |text|
    ensures i == start + MatchLen(text[start..], open, close, 0) && i <= |text|
  {
    hide SkipLen;
    var depth := 0;
    i := start;
    while i < |text|
      invariant start <= i <= |text|
      invariant i + MatchLen(text[i..], open, close, depth) == start + MatchLen(text[start..], open, close, 0)
      decreases |text| - i
    {
      var skipped := Skip(text, i);
      assert text[i..][SkipLen(text[i..])..] == text[skipped..];
      if skipped != i {
        i := skipped;
        continue;
      }
      assert text[i..][1..] == text[i + 1..];
      if text[i] == open {
        depth := depth + 1;
      } else if text[i] == close {
        depth := depth - 1;
        if depth == 0 {
          i := i + 1;
          return;
        }
      }
      i := i + 1;
    }
  }

  lemma BodyStep(text: string, i: nat, at: Nesting)
    requires i < |text|
    ensures var k := SkipLen(text[i..]);
            i + BodyLen(text[i..], at) ==
            if k != 0 then i + k + BodyLen(text[i + k..], at)
            else if at.EndsDeclaration(text[i]) then i
            else if at.After(text[i]).Closed() then i + 1
            else i + 1 + BodyLen(text[i + 1..], at.After(text[i]))
  {
    hide SkipLen;
    assert text[i..][SkipLen(text[i..])..] == text[i + SkipLen(text[i..])..];
    assert text[i..][1..] == text[i + 1..];
  }

  method BodyEnd(text: string, start: nat) returns (i: nat)
    requires start <= |text|
    ensures i == start + BodyLen(text[start..], OUTSIDE) && i <= |text|
  {
    hide SkipLen, BodyLen;
    var depth, nest, isOpen := 0, 0, false;
    i := start;
    while i < |text|
      invariant start <= i <= |text|
      invariant i + BodyLen(text[i..], Nesting(depth, nest, isOpen)) == start + BodyLen(text[start..], OUTSIDE)
      decreases |text| - i
    {
      BodyStep(text, i, Nesting(depth, nest, isOpen));
      var skipped := Skip(text, i);
      if skipped != i {
        i := skipped;
        continue;
      }
      var c := text[i];
      if c == '{' {
        depth, isOpen := depth + 1, true;
      } else if c == '}' {
        depth := depth - 1;
      } else if !isOpen && (c == '(' || c == '[') {
        nest := nest + 1;
      } else if !isOpen && (c == ')' || c == ']') {
        nest := nest - 1;
      } else if c == ';' && !isOpen && nest == 0 {
        return;
      }
      i := i + 1;
      if isOpen && depth == 0 {
        return;
      }
    }
  }

  /** One turn of the loop below: what is normalised and what remains. */
  lemma NormaliseTurn(out: string, text: string, i: nat, pending: bool)
    requires i < |text|
    ensures var n := PieceLen(text[i..]);
            if LiteralLen(text[i..]).None? && IsSpace(text[i]) then
              Normalised(text[i..], pending, out != "") == Normalised(text[i + 1..], true, out != "")
            else
              out + Normalised(text[i..], pending, out != "") ==
              out + (if pending && out != "" then " " else "") + Piece(text[i..]) + Normalised(text[i + n..], false, true)
  {
    hide *;
    var rest, n := text[i..], PieceLen(text[i..]);
    NormalisedStep(rest, pending, out != "");
    assert rest[1..] == text[i + 1..] && rest[n..] == text[i + n..];
    var gap := if pending && out != "" then " " else "";
    assert out + (gap + Piece(rest) + Normalised(rest[n..], false, true))
        == out + gap + Piece(rest) + Normalised(rest[n..], false, true);
  }

  lemma PieceCases(text: string, i: nat)
    requires i < |text|
    ensures var rest := text[i..];
            && (LiteralLen(rest).Some? ==> PieceLen(rest) == LiteralLen(rest).value && Piece(rest) == text[i..i + PieceLen(rest)])
            && (LiteralLen(rest).None? && CommentLen(rest).Some? ==>
                  PieceLen(rest) == CommentLen(rest).value && Piece(rest) == Collapse(text[i..i + PieceLen(rest)], false, false))
            && (LiteralLen(rest).None? && CommentLen(rest).None? ==> PieceLen(rest) == 1 && Piece(rest) == [text[i]])
            && ((LiteralLen(rest).None? && IsSpace(text[i])) || Piece(rest) != "")
  {
    hide LiteralLen, CommentLen;
    var rest := text[i..];
    assert rest[..PieceLen(rest)] == text[i..i + PieceLen(rest)];
  }

  method NormaliseText(text: string) returns (out: string)
    ensures out == Normalise(text)
  {
    hide LiteralLen, CommentLen, Collapse, Piece, PieceLen, Normalised, IsSpace;
    out := "";
    var pending, i := false, 0;
    assert text[0..] == text;
    while i < |text|
      invariant i <= |text|
      invariant out + Normalised(text[i..], pending, out != "") == Normalise(text)
      decreases |text| - i
    {
      NormaliseTurn(out, text, i, pending);
      PieceCases(text, i);
      var end := LiteralEnd(text, i);
      if end == None && IsSpace(text[i]) {
        pending, i := true, i + 1;
        continue;
      }
      if pending && out != "" {
        out := out + " ";
      }
      pending := false;
      if end.Some? {
        out := out + text[i..end.value];
        i := end.value;
        continue;
      }
      end := CommentEnd(text, i);
      if end.Some? {
        out := out + Collapse(text[i..end.value], false, false);
        i := end.value;
        continue;
      }
      out := out + [text[i]];
      i := i + 1;
    }
    assert text[i..] == "";
    NormalisedOfNothing(pending, out != "");
  }

  lemma NormalisedOfNothing(pending: bool, started: bool)
    ensures Normalised("", pending, started) == ""
  {
  }

  /** The pending prefix as the text it stands for. */
  function PrefixText(text: string, prefix: Option<nat>, i: nat): Option<string>
    requires i <= |text| && (prefix.Some? ==> prefix.value <= i)
  {
    match prefix
    case None => None
    case Some(p) => Some(text[p..i])
  }

  /** One turn of the scan, counted. */
  lemma CountedTurn(prefix: Option<string>, s: string)
    requires s != ""
    ensures var t := Next(prefix, s);
            Counted(Functions(prefix, s)) ==
            (if t.item.Some? then multiset{(t.item.value.0, Normalise(t.item.value.1))} else multiset{})
            + Counted(Functions(t.prefix, s[t.length..]))
  {
    hide Next, Normalise;
    var t := Next(prefix, s);
    if t.item.Some? {
      assert Functions(prefix, s)[1..] == Functions(t.prefix, s[t.length..]);
    } else {
      assert Functions(prefix, s) == Functions(t.prefix, s[t.length..]);
    }
  }

  method SkipBlanks(text: string, start: nat) returns (i: nat)
    requires start <= |text|
    ensures i == start + Spaces(text[start..])
  {
    i := start;
    while i < |text| && IsSpace(text[i])
      invariant start <= i <= |text|
      invariant i + Spaces(text[i..]) == start + Spaces(text[start..])
    {
      assert text[i..][1..] == text[i + 1..];
      i := i + 1;
    }
  }

  lemma Slices(text: string, prefix: Option<nat>, i: nat, n: nat)
    requires i + n <= |text| && (prefix.Some? ==> prefix.value <= i)
    ensures text[i..][n..] == text[i + n..]
    ensures PrefixText(text, prefix, i + n) == Grow(PrefixText(text, prefix, i), text[i..][..n])
    ensures var start := if prefix.None? then i else prefix.value;
            && PrefixText(text, Some(start), i + n) == Some(text[start..i + n])
            && text[start..i + n] == Pending(PrefixText(text, prefix, i)) + text[i..][..n]
  {
    var start := if prefix.None? then i else prefix.value;
    assert text[start..i + n] == text[start..i] + text[i..][..n];
    assert Pending(PrefixText(text, prefix, i)) == text[start..i];
  }

  method OuterPrefixEnd(text: string, i: nat) returns (r: nat)
    requires i < |text| && StartsOuterPrefix(text[i..])
    ensures r == i + OuterPrefixLen(text[i..])
  {
    assert text[i..][1..] == text[i + 1..];
    if text[i] == '#' {
      r := Matching(text, i + 1, '[', ']');
    } else {
      var end := CommentEnd(text, i);
      r := end.value;
    }
  }

  method QualifierEnd(text: string, i: nat) returns (r: nat)
    requires i < |text| && IsQualifier(text[i..][..WordLen(text[i..])])
    ensures r == i + QualifierLen(text[i..])
  {
    hide MatchLen, WordLen, Spaces, IsQualifier;
    ghost var s := text[i..];
    r := i + WordLen(text[i..]);
    assert s[WordLen(s)..] == text[r..];
    var blank := Spaces(text[r..]);
    assert s[WordLen(s) + blank..] == text[r + blank..];
    if text[i..r] == "pub" && At(text, r + blank, '(') {
      r := Matching(text, r + blank, '(', ')');
    }
  }

  /** The name and the end of the function whose keyword stands at `i`, if a name follows it. */
  method FunctionEnd(text: string, i: nat) returns (r: Option<(string, nat)>)
    requires i < |text| && text[i..][..WordLen(text[i..])] == "fn"
    ensures r.Some? <==> StartsFunction(text[i..])
    ensures r.Some? ==> r.value == (FunctionName(text[i..]), i + FunctionLen(text[i..]))
  {
    hide BodyLen, WordLen;
    ghost var s := text[i..];
    assert s[WordLen(s)..] == text[i + WordLen(s)..];
    var afterFn := SkipBlanks(text, i + WordLen(text[i..]));
    assert s[NameAt(s)..] == text[afterFn..];
    var name := WordLen(text[afterFn..]);
    if name == 0 {
      return None;
    }
    assert s[NamedAt(s)..] == text[afterFn + name..];
    assert FunctionName(s) == text[afterFn..afterFn + name];
    var stop := BodyEnd(text, afterFn + name);
    r := Some((text[afterFn..afterFn + name], stop));
  }

  method InnerAttributeEnd(text: string, i: nat) returns (r: nat)
    requires i < |text| && StartsInnerAttribute(text[i..])
    ensures r == i + InnerAttributeLen(text[i..])
  {
    assert text[i..][2..] == text[i + 2..];
    r := Matching(text, i + 2, '[', ']');
  }

  predicate Ready(text: string, prefix: Option<nat>, i: nat) {
    i <= |text| && (prefix.Some? ==> prefix.value <= i)
  }

  function Start(prefix: Option<nat>, i: nat): nat {
    if prefix.None? then i else prefix.value
  }

  /** What the scan has yet to count when it stands at `i`. */
  function ToCount(text: string, prefix: Option<nat>, i: nat): multiset<Item>
    requires Ready(text, prefix, i)
  {
    Counted(Functions(PrefixText(text, prefix, i), text[i..]))
  }

  /** The scan takes the turn `t`; `prefix` is the index it then remembers. */
  lemma Advance(text: string, prefix: Option<nat>, i: nat, t: Turn, next: Option<nat>)
    requires i < |text| && Ready(text, prefix, i) && t == Next(PrefixText(text, prefix, i), text[i..])
    requires next == (if t.prefix.None? then None else Some(Start(prefix, i)))
    ensures ToCount(text, prefix, i) ==
            (if t.item.Some? then multiset{(t.item.value.0, Normalise(t.item.value.1))} else multiset{})
            + ToCount(text, next, i + t.length)
  {
    hide Next, Functions, Counted, Normalise;
    var pending := PrefixText(text, prefix, i);
    CountedTurn(pending, text[i..]);
    Slices(text, prefix, i, t.length);
    if t.prefix.Some? {
      TurnText(pending, text[i..]);
    }
  }

  lemma AfterBlank(text: string, prefix: Option<nat>, i: nat)
    requires i < |text| && Ready(text, prefix, i) && IsSpace(text[i])
    ensures ToCount(text, prefix, i) == ToCount(text, prefix, i + 1)
  {
    hide ToCount;
    Advance(text, prefix, i, Next(PrefixText(text, prefix, i), text[i..]), prefix);
  }

  lemma AfterOuterPrefix(text: string, prefix: Option<nat>, i: nat)
    requires i < |text| && Ready(text, prefix, i) && !IsSpace(text[i]) && StartsOuterPrefix(text[i..])
    ensures ToCount(text, prefix, i) == ToCount(text, Some(Start(prefix, i)), i + OuterPrefixLen(text[i..]))
  {
    hide ToCount, OuterPrefixLen;
    Advance(text, prefix, i, Next(PrefixText(text, prefix, i), text[i..]), Some(Start(prefix, i)));
  }

  /** None of the turns above, so the scan looks for a literal, a comment or a word. */
  predicate AtToken(text: string, i: nat) {
    i < |text| && !IsSpace(text[i]) && !StartsOuterPrefix(text[i..])
  }

  lemma AfterInnerAttribute(text: string, prefix: Option<nat>, i: nat)
    requires Ready(text, prefix, i) && AtToken(text, i) && StartsInnerAttribute(text[i..])
    ensures ToCount(text, prefix, i) == ToCount(text, None, i + InnerAttributeLen(text[i..]))
  {
    hide ToCount, InnerAttributeLen;
    Advance(text, prefix, i, Next(PrefixText(text, prefix, i), text[i..]), None);
  }

  lemma AfterSkip(text: string, prefix: Option<nat>, i: nat)
    requires Ready(text, prefix, i) && AtToken(text, i) && !StartsInnerAttribute(text[i..])
    requires SkipLen(text[i..]) != 0
    ensures var keeps := text[i] == '/' || (prefix.Some? && text[i] == '"');
            ToCount(text, prefix, i) == ToCount(text, if keeps then prefix else None, i + SkipLen(text[i..]))
  {
    hide ToCount, SkipLen;
    var keeps := text[i] == '/' || (prefix.Some? && text[i] == '"');
    Advance(text, prefix, i, Next(PrefixText(text, prefix, i), text[i..]), if keeps then prefix else None);
  }

  predicate AtWord(text: string, i: nat) {
    AtToken(text, i) && !StartsInnerAttribute(text[i..]) && SkipLen(text[i..]) == 0
  }

  lemma AfterFunction(text: string, prefix: Option<nat>, i: nat)
    requires Ready(text, prefix, i) && AtWord(text, i) && StartsFunction(text[i..])
    ensures var stop := i + FunctionLen(text[i..]);
            ToCount(text, prefix, i) ==
            multiset{(FunctionName(text[i..]), Normalise(text[Start(prefix, i)..stop]))}
            + ToCount(text, None, stop)
  {
    hide ToCount, SkipLen, FunctionLen, FunctionName, StartsFunction, Normalise;
    Slices(text, prefix, i, FunctionLen(text[i..]));
    Advance(text, prefix, i, Next(PrefixText(text, prefix, i), text[i..]), None);
  }

  lemma AfterQualifier(text: string, prefix: Option<nat>, i: nat)
    requires Ready(text, prefix, i) && AtWord(text, i) && !StartsFunction(text[i..])
    requires IsQualifier(text[i..][..WordLen(text[i..])])
    ensures ToCount(text, prefix, i) == ToCount(text, Some(Start(prefix, i)), i + QualifierLen(text[i..]))
  {
    hide ToCount, SkipLen, QualifierLen, StartsFunction, WordLen;
    Advance(text, prefix, i, Next(PrefixText(text, prefix, i), text[i..]), Some(Start(prefix, i)));
  }

  lemma AfterOther(text: string, prefix: Option<nat>, i: nat)
    requires Ready(text, prefix, i) && AtWord(text, i) && !StartsFunction(text[i..])
    requires !IsQualifier(text[i..][..WordLen(text[i..])])
    ensures var w := WordLen(text[i..]);
            ToCount(text, prefix, i) == ToCount(text, None, i + if w > 0 then w else 1)
  {
    hide ToCount, SkipLen, StartsFunction, WordLen;
    Advance(text, prefix, i, Next(PrefixText(text, prefix, i), text[i..]), None);
  }

  method FnBodiesOf(text: string) returns (found: multiset<Item>)
    ensures found == Bodies(text)
  {
    hide SkipLen, WordLen, Normalise, ToCount, Bodies;
    hide OuterPrefixLen, InnerAttributeLen, QualifierLen, FunctionLen, FunctionName, StartsFunction, NameAt;
    hide IsSpace, StartsOuterPrefix, StartsInnerAttribute, IsQualifier;
    found := multiset{};
    var prefix: Option<nat>, i := None, 0;
    CountAtStart(text);
    while i < |text|
      invariant Ready(text, prefix, i)
      invariant found + ToCount(text, prefix, i) == Bodies(text)
      decreases |text| - i
    {
      if IsSpace(text[i]) {
        AfterBlank(text, prefix, i);
        i := i + 1;
        continue;
      }
      var start := if prefix == None then i else prefix.value;
      if StartsOuterPrefix(text[i..]) {
        AfterOuterPrefix(text, prefix, i);
        prefix := Some(start);
        i := OuterPrefixEnd(text, i);
        continue;
      }
      if StartsInnerAttribute(text[i..]) {
        AfterInnerAttribute(text, prefix, i);
        prefix := None;
        i := InnerAttributeEnd(text, i);
        continue;
      }
      var end := Skip(text, i);
      if end != i {
        AfterSkip(text, prefix, i);
        if text[i] != '/' && !(prefix.Some? && text[i] == '"') {
          prefix := None;
        }
        i := end;
        continue;
      }
      var word := text[i..][..WordLen(text[i..])];
      if word == "fn" {
        var named := FunctionEnd(text, i);
        if named.Some? {
          AfterFunction(text, prefix, i);
          var (name, stop) := named.value;
          var normalised := NormaliseText(text[start..stop]);
          found := found + multiset{(name, normalised)};
          prefix, i := None, stop;
          continue;
        }
      }
      if word != "fn" {
        NoFunction(text[i..]);
      }
      if IsQualifier(word) {
        AfterQualifier(text, prefix, i);
        prefix := Some(start);
        i := QualifierEnd(text, i);
        continue;
      }
      AfterOther(text, prefix, i);
      prefix := None;
      i := i + if |word| > 0 then |word| else 1;
    }
    CountAtEnd(text, prefix);
  }

  lemma NoFunction(s: string)
    requires s[..WordLen(s)] != "fn"
    ensures !StartsFunction(s)
  {
  }

  lemma CountAtStart(text: string)
    ensures ToCount(text, None, 0) == Bodies(text)
  {
    assert text[0..] == text;
  }

  lemma CountAtEnd(text: string, prefix: Option<nat>)
    requires Ready(text, prefix, |text|)
    ensures ToCount(text, prefix, |text|) == multiset{}
  {
  }

  /** The Counter of one side of the comparison, the texts of the listed files given. */
  method SideOf(texts: seq<string>) returns (total: multiset<Item>)
    ensures total == Side(texts)
  {
    hide Bodies;
    total := multiset{};
    for k := 0 to |texts|
      invariant total == Sum(Bodies, texts[..k])
    {
      var found := FnBodiesOf(texts[k]);
      SumConcat(Bodies, texts[..k], [texts[k]]);
      assert texts[..k + 1] == texts[..k] + [texts[k]];
      total := total + found;
    }
    assert texts[..|texts|] == texts;
  }
}
