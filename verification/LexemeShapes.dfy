/** What the lexical layer promises: a literal or comment is read as a whole, whatever it contains and
    whatever follows it, so that no brace inside it is ever counted. */
module LexemeShapes {
  import opened Prelude
  import opened RustLexemes

  // ----- String literals -----

  /** One character of a string literal, or a backslash and the character it escapes. */
  datatype Unit = Plain(c: char) | Escaped(c: char)

  predicate PlainUnits(units: seq<Unit>) {
    forall u :: u in units && u.Plain? ==> u.c != '"' && u.c != '\\'
  }

  function Spelled(units: seq<Unit>): string {
    if units == [] then ""
    else (if units[0].Plain? then [units[0].c] else ['\\', units[0].c]) + Spelled(units[1..])
  }

  lemma {:induction false} QuoteAfterUnits(units: seq<Unit>, rest: string)
    requires PlainUnits(units)
    ensures QuoteAt(Spelled(units) + "\"" + rest) == |Spelled(units)|
  {
    var s := Spelled(units) + "\"" + rest;
    if units == [] {
      assert s[0] == '"';
    } else {
      assert Spelled(units) == (if units[0].Plain? then [units[0].c] else ['\\', units[0].c]) + Spelled(units[1..]);
      var tail := Spelled(units[1..]) + "\"" + rest;
      assert units[0] in units;
      assert forall u :: u in units[1..] ==> u in units;
      QuoteAfterUnits(units[1..], rest);
      if units[0].Plain? {
        assert s[0] == units[0].c && s[1..] == tail;
      } else {
        assert s[0] == '\\' && s[2..] == tail;
      }
    }
  }

  /** A string literal ends at its own closing quote, whatever it escapes. */
  lemma StringIsRead(units: seq<Unit>, rest: string)
    requires PlainUnits(units)
    ensures LiteralLen("\"" + Spelled(units) + "\"" + rest) == Some(|Spelled(units)| + 2)
  {
    var s := "\"" + Spelled(units) + "\"" + rest;
    assert s[1..] == Spelled(units) + "\"" + rest;
    QuoteAfterUnits(units, rest);
  }

  // ----- Raw strings -----

  /** A raw string closes with a quote and as many hashes as it opened with. */
  lemma CloseIsQuoteAndHashes(hashes: nat)
    ensures RawClose(hashes) != "" && RawClose(hashes)[0] == '"'
    ensures |RawClose(hashes)| == hashes + 1 && forall k :: 1 <= k <= hashes ==> RawClose(hashes)[k] == '#'
  {
  }

  lemma {:induction false} HashesAfter(n: nat, rest: string)
    requires !At(rest, 0, '#')
    ensures Hashes(seq(n, _ => '#') + rest) == n
  {
    var s := seq(n, _ => '#') + rest;
    if n > 0 {
      HashesAfter(n - 1, rest);
      assert s[0] == '#' && s[1..] == seq(n - 1, _ => '#') + rest;
    } else {
      assert s == rest;
    }
  }

  /** A pattern that occurs first at `k` is found there. */
  lemma {:induction false} FindFirst(s: string, pat: string, k: nat)
    requires pat != "" && k <= |s| && HasPrefix(s[k..], pat)
    requires forall j :: 0 <= j < k ==> !HasPrefix(s[j..], pat)
    ensures Find(s, pat) == Some(k)
  {
    assert s[0..] == s;
    if k > 0 {
      assert s[1..][k - 1..] == s[k..];
      forall j | 0 <= j < k - 1
        ensures !HasPrefix(s[1..][j..], pat)
      {
        assert s[1..][j..] == s[j + 1..];
      }
      FindFirst(s[1..], pat, k - 1);
    }
  }

  /** The raw string's text does not hold its own closing delimiter. */
  predicate Unclosed(body: string, hashes: nat) {
    forall j :: 0 <= j < |body| ==> !HasPrefix((body + RawClose(hashes))[j..], RawClose(hashes))
  }

  /** A raw string ends at its own delimiter, whatever braces, quotes and shorter delimiters it holds. */
  lemma RawIsRead(hashes: nat, body: string, rest: string)
    requires Unclosed(body, hashes)
    ensures RawLen(seq(hashes, _ => '#') + "\"" + body + RawClose(hashes) + rest) == Some(2 * (hashes + 1) + |body|)
  {
    hide Find, Hashes;
    var opening, close := seq(hashes, _ => '#'), RawClose(hashes);
    var s := opening + "\"" + body + close + rest;
    var inner := body + close + rest;
    assert s == opening + ("\"" + inner);
    HashesAfter(hashes, "\"" + inner);
    assert s[hashes] == '"' && s[hashes + 1..] == inner;
    assert inner[|body|..][..|close|] == close;
    forall j | 0 <= j < |body|
      ensures !HasPrefix(inner[j..], close)
    {
      assert inner[j..][..|close|] == (body + close)[j..][..|close|];
    }
    FindFirst(inner, close, |body|);
  }

  lemma {:induction false} WordBefore(w: string, rest: string)
    requires forall c :: c in w ==> IsWordChar(c)
    requires rest != "" && !IsWordChar(rest[0])
    ensures WordRun(w + rest) == |w|
  {
    hide IsWordChar;
    if w == "" {
      assert w + rest == rest;
    } else {
      assert w[0] in w;
      assert (w + rest)[1..] == w[1..] + rest;
      WordBefore(w[1..], rest);
    }
  }

  lemma PrefixIsWord(prefix: string, raw: string)
    requires prefix == "r" || prefix == "br" || prefix == "cr"
    requires raw != "" && (raw[0] == '#' || raw[0] == '"')
    ensures WordLen(prefix + raw) == |prefix|
  {
    assert prefix[1..] == (if prefix == "r" then "" else "r");
    WordBefore(prefix[1..], raw);
    assert (prefix + raw)[1..] == prefix[1..] + raw;
  }

  /** With each of its prefixes. */
  lemma RawLiteralIsRead(prefix: string, hashes: nat, body: string, rest: string)
    requires prefix == "r" || prefix == "br" || prefix == "cr"
    requires Unclosed(body, hashes)
    ensures LiteralLen(prefix + (seq(hashes, _ => '#') + "\"" + body + RawClose(hashes) + rest))
            == Some(|prefix| + 2 * (hashes + 1) + |body|)
  {
    hide WordLen, RawLen, RawClose, Unclosed;
    RawIsRead(hashes, body, rest);
    var raw := seq(hashes, _ => '#') + "\"" + body + RawClose(hashes) + rest;
    assert raw[0] == '#' || raw[0] == '"';
    PrefixIsWord(prefix, raw);
    assert (prefix + raw)[..|prefix|] == prefix && (prefix + raw)[|prefix|..] == raw;
  }

  // ----- Byte and C strings -----

  lemma OneLetterWord(prefix: string, quoted: string)
    requires prefix == "b" || prefix == "c"
    requires quoted != "" && !IsWordChar(quoted[0])
    ensures WordLen(prefix + quoted) == 1
    ensures (prefix + quoted)[..1] == prefix && (prefix + quoted)[1..] == quoted
  {
    WordBefore("", quoted);
    assert "" + quoted == quoted;
  }

  /** `b"..."` and `c"..."` end at their own closing quote. */
  lemma PrefixedStringIsRead(prefix: string, units: seq<Unit>, rest: string)
    requires (prefix == "b" || prefix == "c") && PlainUnits(units)
    ensures LiteralLen(prefix + ("\"" + Spelled(units) + "\"" + rest)) == Some(|Spelled(units)| + 3)
  {
    var quoted := "\"" + Spelled(units) + "\"" + rest;
    assert quoted[0] == '"' && quoted[1..] == Spelled(units) + "\"" + rest;
    QuoteAfterUnits(units, rest);
    OneLetterWord(prefix, quoted);
    hide WordLen, RawLen, CharLen, QuoteAt;
  }

  // ----- Chars -----

  /** Any one character but a backslash between quotes. */
  lemma CharIsRead(c: char, rest: string)
    requires c != '\\'
    ensures LiteralLen("'" + [c] + "'" + rest) == Some(3)
    ensures LiteralLen("b" + ("'" + [c] + "'" + rest)) == Some(4)
  {
    var quoted := "'" + [c] + "'" + rest;
    assert quoted[0] == '\'' && quoted[1] == c && quoted[2] == '\'';
    assert CharLen(quoted) == Some(3);
    OneLetterWord("b", quoted);
    hide WordLen, RawLen, StringLen, CharLen;
  }

  /** An escape, such as `\n`, `\'` or `\u{1F600}`, between quotes. */
  lemma EscapeIsRead(c: char, more: string, rest: string)
    requires '\'' !in more
    ensures LiteralLen("'\\" + [c] + more + "'" + rest) == Some(|more| + 4)
    ensures LiteralLen("b" + ("'\\" + [c] + more + "'" + rest)) == Some(|more| + 5)
  {
    var quoted := "'\\" + [c] + more + "'" + rest;
    assert quoted[0] == '\'' && quoted[1] == '\\' && quoted[3..] == more + "'" + rest;
    QuoteAfter(more, rest);
    assert CharLen(quoted) == Some(|more| + 4) by {
      hide Find;
    }
    OneLetterWord("b", quoted);
    hide WordLen, RawLen, StringLen, CharLen, Find;
  }

  lemma QuoteAfter(more: string, rest: string)
    requires '\'' !in more
    ensures Find(more + "'" + rest, "'") == Some(|more|)
  {
    var s := more + "'" + rest;
    assert s[|more|..][..1] == "'";
    forall j | 0 <= j < |more|
      ensures !HasPrefix(s[j..], "'")
    {
      assert s[j..][..1][0] == more[j];
    }
    hide Find;
    FindFirst(s, "'", |more|);
  }

  /** A lifetime is no literal: its quote is read alone. */
  lemma LifetimeIsNoLiteral(name: string, rest: string)
    requires name != "" && forall c :: c in name ==> IsWordChar(c)
    requires |name| == 1 ==> !At(rest, 0, '\'')
    ensures LiteralLen("'" + name + rest) == None && SkipLen("'" + name + rest) == 0
  {
    var s := "'" + name + rest;
    assert s[1] == name[0] && name[0] in name;
    assert |name| > 1 ==> s[2] == name[1] && name[1] in name;
    assert |name| == 1 && rest != "" ==> s[2] == rest[0];
  }

  // ----- Block comments -----

  /** The inside of a block comment: texts and nested comments. */
  datatype Comment = End | Text(text: string, more: Comment) | Nested(inside: Comment, more: Comment)

  function Inside(c: Comment): string {
    match c
    case End => ""
    case Text(t, more) => t + Inside(more)
    case Nested(inside, more) => "/*" + Inside(inside) + "*/" + Inside(more)
  }

  predicate Mark(a: char, b: char) {
    (a == '/' && b == '*') || (a == '*' && b == '/')
  }

  /** No delimiter in the text, nor one begun at its end. */
  predicate Unmarked(t: string) {
    && (forall k :: 0 < k < |t| ==> !Mark(t[k - 1], t[k]))
    && (t != "" ==> t[|t| - 1] != '/' && t[|t| - 1] != '*')
  }

  predicate WellFormed(c: Comment) {
    match c
    case End => true
    case Text(t, more) => Unmarked(t) && WellFormed(more)
    case Nested(inside, more) => WellFormed(inside) && WellFormed(more)
  }

  lemma {:induction false} BlockAfterText(depth: nat, t: string, rest: string)
    requires depth > 0 && Unmarked(t)
    ensures BlockLen(depth, t + rest) == |t| + BlockLen(depth, rest)
  {
    if t == "" {
      assert t + rest == rest;
    } else {
      var s := t + rest;
      assert s[1..] == t[1..] + rest;
      if |t| > 1 {
        assert !Mark(t[0], t[1]) && s[1] == t[1];
      }
      forall k | 0 < k < |t[1..]|
        ensures !Mark(t[1..][k - 1], t[1..][k])
      {
        assert !Mark(t[k], t[k + 1]);
      }
      BlockAfterText(depth, t[1..], rest);
    }
  }

  lemma BlockOpens(depth: nat, tail: string)
    requires depth > 0
    ensures BlockLen(depth, "/*" + tail) == 2 + BlockLen(depth + 1, tail)
  {
    assert ("/*" + tail)[2..] == tail;
  }

  lemma BlockCloses(depth: nat, tail: string)
    requires depth > 0
    ensures BlockLen(depth, "*/" + tail) == 2 + BlockLen(depth - 1, tail)
  {
    assert ("*/" + tail)[2..] == tail;
  }

  lemma {:induction false} BlockAfter(depth: nat, c: Comment, rest: string)
    requires depth > 0 && WellFormed(c)
    ensures BlockLen(depth, Inside(c) + rest) == |Inside(c)| + BlockLen(depth, rest)
    decreases c
  {
    hide BlockLen, Unmarked;
    match c
    case End =>
      assert Inside(c) + rest == rest;
    case Text(t, more) =>
      BlockAfterText(depth, t, Inside(more) + rest);
      BlockAfter(depth, more, rest);
      assert Inside(c) + rest == t + (Inside(more) + rest);
    case Nested(inside, more) =>
      var tail := Inside(more) + rest;
      assert Inside(c) + rest == "/*" + (Inside(inside) + ("*/" + tail));
      BlockOpens(depth, Inside(inside) + ("*/" + tail));
      BlockAfter(depth + 1, inside, "*/" + tail);
      BlockCloses(depth + 1, tail);
      BlockAfter(depth, more, rest);
  }

  /** A block comment ends at its own delimiter, however deep it nests. */
  lemma CommentIsRead(c: Comment, rest: string)
    requires WellFormed(c)
    ensures CommentLen("/*" + Inside(c) + "*/" + rest) == Some(|Inside(c)| + 4)
  {
    assert BlockLen(0, rest) == 0;
    hide *;
    var s, tail := "/*" + Inside(c) + "*/" + rest, "*/" + rest;
    assert s[0] == '/' && s[1] == '*' && s[2..] == Inside(c) + tail;
    BlockAfter(1, c, tail);
    BlockCloses(1, rest);
    CommentOpens(s);
  }

  lemma CommentOpens(s: string)
    requires |s| >= 2 && s[0] == '/' && s[1] == '*'
    ensures CommentLen(s) == Some(2 + BlockLen(1, s[2..]))
  {
    hide BlockLen;
  }

  // ----- What follows for bodies -----

  /** The search for the end of a body passes over any literal, of whatever kind, as over nothing. */
  lemma LiteralsHideBraces(text: string, rest: string, at: Nesting)
    requires text != "" && LiteralLen(text + rest) == Some(|text|)
    ensures BodyLen(text + rest, at) == |text| + BodyLen(rest, at)
  {
    var s := text + rest;
    assert s[|text|..] == rest;
    hide LiteralLen;
  }

  /** So the braces in a string literal do not count. */
  lemma StringsHideBraces(units: seq<Unit>, rest: string, at: Nesting)
    requires PlainUnits(units)
    ensures BodyLen("\"" + Spelled(units) + "\"" + rest, at) == |Spelled(units)| + 2 + BodyLen(rest, at)
  {
    StringIsRead(units, rest);
    hide LiteralLen, BodyLen, Spelled;
    LiteralsHideBraces("\"" + Spelled(units) + "\"", rest, at);
  }

  /** The same for block comments. */
  lemma CommentsHideBraces(c: Comment, rest: string, at: Nesting)
    requires WellFormed(c)
    ensures BodyLen("/*" + Inside(c) + "*/" + rest, at) == |Inside(c)| + 4 + BodyLen(rest, at)
  {
    var s := "/*" + Inside(c) + "*/" + rest;
    CommentIsRead(c, rest);
    assert s[|Inside(c)| + 4..] == rest;
    hide CommentLen;
  }
}
