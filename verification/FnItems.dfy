/** Whole functions as they are written: attributes, doc comments, visibility and qualifiers, `fn`, a name, a
    signature and a body. When scripts/check_moved_fn_bodies.py:195-241 reads one as a whole. */
module FnItems {
  import opened Prelude
  import opened RustLexemes
  import opened LexemeShapes
  import opened FnShapes
  import opened FnBodies

  // ----- What stands before `fn` -----

  datatype PrefixItem =
    | Blank(c: char)
    | Comment(text: string)
    | Attribute(inner: string)                      // #[inner]
    | LooseAttribute(gap: string, inner: string)    // # [inner], with blanks or comments before the bracket
    | Qualifier(word: string)
    | PubIn(blanks: string, inner: string)          // pub (inner)
    | Restriction(inner: string)                    // (inner), which a comment separates from `pub`
    | Abi(text: string)                             // the literal after `extern`
    | Word(word: string)                            // any other word, such as `safe`

  /** Visibility and qualifiers, one by one. */
  const QUALIFIERS: set<string> := {"pub", "const", "async", "unsafe", "extern", "default"}

  function TextOf(item: PrefixItem): string {
    match item
    case Blank(c) => [c]
    case Comment(text) => text
    case Attribute(inner) => "#" + (['['] + inner + [']'])
    case LooseAttribute(gap, inner) => "#" + (gap + (['['] + inner + [']']))
    case Qualifier(word) => word
    case PubIn(blanks, inner) => "pub" + (blanks + (['('] + inner + [')']))
    case Restriction(inner) => ['('] + inner + [')']
    case Abi(text) => text
    case Word(word) => word
  }

  predicate IsLetter(c: char) {
    'A' <= c <= 'Z' || 'a' <= c <= 'z' || c == '_'
  }

  /** An ASCII identifier, `[A-Za-z_][A-Za-z0-9_]*`. */
  predicate IsWord(name: string) {
    name != "" && IsLetter(name[0]) && forall c :: c in name ==> IsLetter(c) || '0' <= c <= '9'
  }

  predicate AllBlank(s: string) {
    forall c :: c in s ==> IsSpace(c)
  }

  /** Blanks and comments. */
  predicate IsGap(gap: string, rest: string)
    decreases |gap|
  {
    gap == ""
    || (IsSpace(gap[0]) && IsGap(gap[1..], rest))
    || (var n := CommentLen(gap + rest); n.Some? && n.value <= |gap| && IsGap(gap[n.value..], rest))
  }

  predicate IsGroup(inner: string, rest: string, open: char, close: char) {
    Cuts(inner, [close] + rest) && Balanced(CodeOf(inner, [close] + rest), open, close, 0)
  }

  /** The item stands here, with `rest` behind it. */
  predicate ReadsItem(item: PrefixItem, rest: string) {
    match item
    case Blank(c) => IsSpace(c)
    case Comment(text) => CommentLen(text + rest) == Some(|text|)
    case Attribute(inner) => IsGroup(inner, rest, '[', ']')
    case LooseAttribute(gap, inner) =>
      gap != "" && IsGap(gap, ['['] + inner + [']'] + rest) && IsGroup(inner, rest, '[', ']')
    case Qualifier(word) =>
      && word in QUALIFIERS && rest != "" && !IsWordChar(rest[0])
      && (word == "pub" ==> !At(rest, Spaces(rest), '('))
    case PubIn(blanks, inner) => AllBlank(blanks) && IsGroup(inner, rest, '(', ')')
    case Restriction(inner) => IsGroup(inner, rest, '(', ')')
    case Abi(text) => text != "" && LiteralLen(text + rest) == Some(|text|)
    case Word(word) =>
      && IsWord(word) && word !in QUALIFIERS && word != "fn" && rest != "" && !IsWordChar(rest[0])
      && LiteralLen(word + rest) == None
  }

  function RunText(items: seq<PrefixItem>): string {
    if items == [] then "" else TextOf(items[0]) + RunText(items[1..])
  }

  predicate Reads(items: seq<PrefixItem>, rest: string) {
    items == [] || (ReadsItem(items[0], RunText(items[1..]) + rest) && Reads(items[1..], rest))
  }

  /** The text of a function starts at the first attribute, doc comment, visibility or qualifier. */
  predicate Starts(item: PrefixItem) {
    match item
    case Comment(text) => HasPrefix(text, "///") || HasPrefix(text, "/**")
    case Attribute(_) => true
    case LooseAttribute(_, _) => true
    case Qualifier(_) => true
    case PubIn(_, _) => true
    case _ => false
  }

  /** The scan gives up the prefix it has read: an attribute whose bracket is not at its `#`, a restriction
      that is not at its `pub`, an ABI that is no plain string, a word that is no qualifier. */
  predicate Drops(item: PrefixItem) {
    item.LooseAttribute? || item.Restriction? || item.Word? || (item.Abi? && !At(item.text, 0, '"'))
  }

  predicate Kept(items: seq<PrefixItem>) {
    forall item :: item in items ==> !Drops(item)
  }

  // ----- One item -----

  /** The scan passes over the item and keeps it. */
  predicate Keeps(prefix: Option<string>, text: string, rest: string)
    requires text != ""
  {
    Next(prefix, text + rest) == Turn(|text|, Some(Pending(prefix) + text), None)
  }

  lemma BlankTurn(p: string, c: char, rest: string)
    requires IsSpace(c)
    ensures Keeps(Some(p), [c], rest)
  {
    assert ([c] + rest)[..1] == [c];
    hide IsSpace;
  }

  lemma CommentTurn(prefix: Option<string>, text: string, rest: string)
    requires CommentLen(text + rest) == Some(|text|)
    requires prefix.Some? || HasPrefix(text, "///") || HasPrefix(text, "/**")
    ensures text != "" && Keeps(prefix, text, rest)
  {
    var s := text + rest;
    assert s[0] == '/' && text != "" && s[..|text|] == text;
    assert !IsSpace('/');
    if HasPrefix(text, "///") || HasPrefix(text, "/**") {
      assert s[0] == text[..3][0] && s[1] == text[..3][1] && s[2] == text[..3][2];
    }
    hide CommentLen, LiteralLen, IsSpace;
  }

  lemma AttributeIs(prefix: Option<string>, s: string, n: nat)
    requires |s| >= 2 && s[0] == '#' && s[1] == '[' && n == 1 + MatchLen(s[1..], '[', ']', 0)
    ensures n <= |s| && Next(prefix, s) == Turn(n, Some(Pending(prefix) + s[..n]), None)
  {
    assert !IsSpace('#');
    hide MatchLen, IsSpace, SkipLen, CommentLen, StartsFunction;
  }

  lemma GroupLength(inner: string, rest: string, open: char, close: char)
    requires (open == '[' && close == ']') || (open == '(' && close == ')')
    requires IsGroup(inner, rest, open, close)
    ensures MatchLen([open] + inner + [close] + rest, open, close, 0) == |inner| + 2
  {
    GroupIsMatched(inner, rest, open, close);
    hide MatchLen;
  }

  /** The text of a mark and a group behind it. */
  lemma MarkedText(mark: string, inner: string, rest: string)
    ensures var group := ['['] + inner + [']'];
            var s := mark + group + rest;
            && s[|mark|..] == ['['] + inner + [']'] + rest && s[..|mark + group|] == mark + group
            && |s| > |mark| && s[|mark|] == '[' && |mark + group| == |mark| + |inner| + 2
            && forall k :: 0 <= k < |mark| ==> s[k] == mark[k]
  {
  }

  lemma AttributeTurn(prefix: Option<string>, inner: string, rest: string)
    requires IsGroup(inner, rest, '[', ']')
    ensures Keeps(prefix, "#" + (['['] + inner + [']']), rest)
  {
    var text := "#" + (['['] + inner + [']']);
    hide Next, MatchLen, IsGroup;
    MarkedText("#", inner, rest);
    GroupLength(inner, rest, '[', ']');
    AttributeIs(prefix, text + rest, |text|);
  }

  lemma WordFollowed(w: string, rest: string)
    requires w != "" && IsWordStart(w[0]) && forall c :: c in w ==> IsWordChar(c)
    requires rest != "" && !IsWordChar(rest[0])
    ensures WordLen(w + rest) == |w| && (w + rest)[..|w|] == w && (w + rest)[|w|..] == rest
  {
    assert forall c :: c in w[1..] ==> c in w;
    WordBefore(w[1..], rest);
    assert (w + rest)[1..] == w[1..] + rest;
    hide IsWordChar, IsWordStart;
  }

  lemma KeywordIsWord(w: string)
    requires IsQualifier(w) || w == "fn"
    ensures w != "" && IsWordStart(w[0]) && forall c :: c in w ==> IsWordChar(c)
    ensures !IsSpace(w[0]) && w[0] != '#' && w[0] != '/' && w[0] != '"' && w[0] != '\''
    ensures w != "r" && w != "b" && w != "br" && w != "c" && w != "cr"
  {
  }

  lemma QualifiersAre(w: string)
    ensures w in QUALIFIERS <==> IsQualifier(w)
  {
  }

  lemma WordCharsAre(name: string)
    ensures IsWord(name) <==> name != "" && IsWordStart(name[0]) && forall c :: c in name ==> IsWordChar(c)
  {
  }

  /** A word that is neither a qualifier nor `fn` makes the scan forget what it has read. */
  lemma OtherWordTurn(prefix: Option<string>, w: string, rest: string)
    requires ReadsItem(Word(w), rest)
    ensures w != "" && Next(prefix, w + rest) == Turn(|w|, None, None)
  {
    QualifiersAre(w);
    WordCharsAre(w);
    assert w != "" && w != "fn" && !IsQualifier(w) && LiteralLen(w + rest) == None;
    hide IsWordChar, IsWord, WordLen, IsQualifier, LiteralLen;
    WordFollowed(w, rest);
    StartIsNoMark(w[0]);
    assert (w + rest)[0] == w[0];
    hide IsWordStart, IsSpace;
  }

  lemma StartIsNoMark(c: char)
    requires IsWordStart(c)
    ensures !IsSpace(c) && c != '#' && c != '/'
  {
  }

  /** A qualifier or `fn` is neither blank nor lexeme nor attribute. */
  lemma KeywordIsNoLexeme(w: string, rest: string)
    requires (IsQualifier(w) || w == "fn") && rest != "" && !IsWordChar(rest[0])
    ensures var s := w + rest;
            && WordLen(s) == |w| > 0 && s[..|w|] == w && s[|w|..] == rest && s[0] == w[0]
            && !IsSpace(s[0]) && !StartsOuterPrefix(s) && !StartsInnerAttribute(s) && SkipLen(s) == 0
  {
    KeywordIsWord(w);
    WordFollowed(w, rest);
    hide WordLen, IsQualifier, RawLen, StringLen, CharLen, IsSpace, IsWordChar, IsWordStart;
    var s := w + rest;
    assert s[0] == w[0];
  }

  lemma QualifierTurn(prefix: Option<string>, w: string, rest: string)
    requires IsQualifier(w) && rest != "" && !IsWordChar(rest[0])
    requires w == "pub" ==> !At(rest, Spaces(rest), '(')
    ensures w != "" && Keeps(prefix, w, rest)
  {
    KeywordIsNoLexeme(w, rest);
    hide WordLen, SkipLen, Spaces, IsSpace, IsWordChar, StartsOuterPrefix, StartsInnerAttribute;
  }

  lemma {:induction false} SpacesBefore(blanks: string, rest: string)
    requires AllBlank(blanks) && rest != "" && !IsSpace(rest[0])
    ensures Spaces(blanks + rest) == |blanks|
  {
    hide IsSpace;
    if blanks == "" {
      assert blanks + rest == rest;
    } else {
      assert blanks[0] in blanks && forall c :: c in blanks[1..] ==> c in blanks;
      assert (blanks + rest)[1..] == blanks[1..] + rest;
      SpacesBefore(blanks[1..], rest);
    }
  }

  lemma PubText(blanks: string, inner: string, rest: string)
    ensures var group := ['('] + inner + [')'] + rest;
            var s := "pub" + (blanks + (['('] + inner + [')'])) + rest;
            s == "pub" + (blanks + group) && (blanks + group)[|blanks|..] == group && group[0] == '('
            && s[3 + |blanks|..] == group && s[3..] == blanks + group
  {
  }

  lemma PubInTurn(prefix: Option<string>, blanks: string, inner: string, rest: string)
    requires AllBlank(blanks) && IsGroup(inner, rest, '(', ')')
    ensures Keeps(prefix, "pub" + (blanks + (['('] + inner + [')'])), rest)
  {
    var text, group := "pub" + (blanks + (['('] + inner + [')'])), ['('] + inner + [')'] + rest;
    var s := text + rest;
    GroupIsMatched(inner, rest, '(', ')');
    PubText(blanks, inner, rest);
    assert !IsWordChar('(') && !IsSpace('(');
    BlankIsNoWord(blanks, group);
    KeywordIsNoLexeme("pub", blanks + group);
    SpacesBefore(blanks, group);
    assert s[..|text|] == text && |text| == 3 + |blanks| + |inner| + 2;
    PubLength(s, blanks, group);
    hide *;
    QualifierIs(prefix, s, text);
  }

  lemma BlankIsNoWord(blanks: string, rest: string)
    requires AllBlank(blanks) && rest != "" && !IsWordChar(rest[0])
    ensures !IsWordChar((blanks + rest)[0])
  {
    if blanks != "" {
      assert blanks[0] in blanks;
    }
  }

  lemma PubLength(s: string, blanks: string, group: string)
    requires WordLen(s) == 3 && s[..3] == "pub" && s[3..] == blanks + group && Spaces(blanks + group) == |blanks|
    requires group != "" && group[0] == '(' && s[3 + |blanks|..] == group
    ensures IsQualifier(s[..WordLen(s)]) && QualifierLen(s) == 3 + |blanks| + MatchLen(group, '(', ')', 0)
  {
    hide WordLen, Spaces, MatchLen;
    assert s[3 + |blanks|] == group[0];
  }

  lemma QualifierIs(prefix: Option<string>, s: string, text: string)
    requires s != "" && !IsSpace(s[0]) && !StartsOuterPrefix(s) && !StartsInnerAttribute(s) && SkipLen(s) == 0
    requires IsQualifier(s[..WordLen(s)]) && QualifierLen(s) == |text| <= |s| && s[..|text|] == text
    ensures Next(prefix, s) == Turn(|text|, Some(Pending(prefix) + text), None)
  {
    hide WordLen, SkipLen, Spaces, IsSpace, StartsOuterPrefix, StartsInnerAttribute, QualifierLen;
  }

  lemma AbiTurn(p: string, text: string, rest: string)
    requires text != "" && LiteralLen(text + rest) == Some(|text|)
    ensures Next(Some(p), text + rest) == Turn(|text|, if text[0] == '"' then Some(p + text) else None, None)
  {
    var s := text + rest;
    assert s[..|text|] == text && s[0] == text[0];
    LiteralIsNoAttribute(s);
    hide LiteralLen, IsSpace;
  }

  lemma LiteralIsNoAttribute(s: string)
    requires s != "" && LiteralLen(s).Some?
    ensures s[0] != '#' && s[0] != '/' && !IsSpace(s[0])
  {
  }

  /** The scan gives up at the first character of the item. */
  lemma LoneCharTurn(prefix: Option<string>, c: char, rest: string)
    requires c == '(' || (c == '#' && rest != "" && rest[0] != '[' && rest[0] != '!')
    ensures Next(prefix, [c] + rest) == Turn(1, None, None)
  {
    QuietIsCode(c, rest);
    hide SkipLen;
    var s := [c] + rest;
    assert !IsSpace(c) && WordLen(s) == 0;
    assert c == '#' ==> s[1] == rest[0];
  }

  /** `#!` without a bracket behind it, as in a `#!/usr/bin/env` line, is no attribute. */
  lemma ShebangTurn(prefix: Option<string>, rest: string)
    requires !At(rest, 0, '[')
    ensures Next(prefix, "#!" + rest) == Turn(1, None, None)
  {
    var s := "#!" + rest;
    assert s == ['#'] + ("!" + rest);
    QuietIsCode('#', "!" + rest);
    assert !IsSpace('#') && WordLen(s) == 0 && s[1] == '!' && (rest != "" ==> s[2] == rest[0]);
    hide SkipLen, WordLen, IsSpace;
  }

  lemma GapStarts(gap: string, rest: string)
    requires gap != "" && IsGap(gap, rest)
    ensures IsSpace(gap[0]) || gap[0] == '/'
    ensures !IsWordChar(gap[0]) && gap[0] != '[' && gap[0] != '!'
  {
    assert (gap + rest)[0] == gap[0];
    hide CommentLen;
  }

  /** The scan gives up at such an item. */
  lemma DropsAny(prefix: Option<string>, item: PrefixItem, rest: string)
    requires ReadsItem(item, rest) && Drops(item) && (prefix.Some? || Starts(item))
    ensures TextOf(item) != ""
    ensures var t := Next(prefix, TextOf(item) + rest);
            t.prefix == None && t.item == None && t.length <= |TextOf(item)|
  {
    hide Next, IsGroup, IsGap, LiteralLen, CommentLen, IsSpace, IsWord;
    match item
    case LooseAttribute(gap, inner) =>
      LooseTurn(prefix, gap, inner, rest);
    case Restriction(inner) =>
      RestrictionTurn(prefix, inner, rest);
    case Abi(text) =>
      AbiTurn(prefix.value, text, rest);
    case Word(word) =>
      OtherWordTurn(prefix, word, rest);
    case _ =>
  }

  lemma LooseTurn(prefix: Option<string>, gap: string, inner: string, rest: string)
    requires gap != "" && IsGap(gap, ['['] + inner + [']'] + rest)
    ensures Next(prefix, "#" + (gap + (['['] + inner + [']'])) + rest) == Turn(1, None, None)
  {
    var tail := gap + (['['] + inner + [']']);
    GapStarts(gap, ['['] + inner + [']'] + rest);
    hide *;
    assert "#" + tail + rest == ['#'] + (tail + rest) && (tail + rest)[0] == gap[0];
    LoneCharTurn(prefix, '#', tail + rest);
  }

  lemma RestrictionTurn(prefix: Option<string>, inner: string, rest: string)
    ensures Next(prefix, ['('] + inner + [')'] + rest) == Turn(1, None, None)
  {
    hide *;
    assert ['('] + inner + [')'] + rest == ['('] + (inner + [')'] + rest);
    LoneCharTurn(prefix, '(', inner + [')'] + rest);
  }

  lemma InnerAttributeIs(prefix: Option<string>, s: string, n: nat)
    requires |s| >= 3 && s[0] == '#' && s[1] == '!' && s[2] == '[' && n == 2 + MatchLen(s[2..], '[', ']', 0)
    ensures Next(prefix, s) == Turn(n, None, None)
  {
    assert !IsSpace('#');
    hide MatchLen, IsSpace, SkipLen, CommentLen, StartsFunction;
  }

  /** An attribute of the enclosing item, `#![inner]`, is passed over as a whole and ends the prefix. */
  lemma InnerAttributeTurn(prefix: Option<string>, inner: string, rest: string)
    requires IsGroup(inner, rest, '[', ']')
    ensures var text := "#!" + (['['] + inner + [']']); Next(prefix, text + rest) == Turn(|text|, None, None)
  {
    var text := "#!" + (['['] + inner + [']']);
    hide *;
    MarkedText("#!", inner, rest);
    GroupLength(inner, rest, '[', ']');
    InnerAttributeIs(prefix, text + rest, |text|);
  }

  lemma KeepTurn(prefix: Option<string>, item: PrefixItem, rest: string)
    requires ReadsItem(item, rest) && !Drops(item) && (prefix.Some? || Starts(item))
    ensures TextOf(item) != "" && Keeps(prefix, TextOf(item), rest)
  {
    hide Next, IsGroup, IsGap, LiteralLen, CommentLen, IsSpace, IsQualifier, Spaces;
    match item
    case Blank(c) => BlankTurn(prefix.value, c, rest);
    case Comment(text) => CommentTurn(prefix, text, rest);
    case Attribute(inner) => AttributeTurn(prefix, inner, rest);
    case Qualifier(word) =>
      QualifiersAre(word);
      QualifierTurn(prefix, word, rest);
    case PubIn(blanks, inner) => PubInTurn(prefix, blanks, inner, rest);
    case Abi(text) => AbiTurn(prefix.value, text, rest);
    case _ =>
  }
}
