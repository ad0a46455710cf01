/** What scripts/check_moved_fn_bodies.py certifies: the functions of a Rust text as a multiset of
    (name, normalised text), and the comparison of two such multisets. */
module FnBodies {
  import opened Prelude
  import opened RustLexemes
  import opened MultisetSums

  type Item = (string, string)

  // ----- Normalisation -----

  /** `" ".join(text.split())`, with what has been seen of the text so far. */
  function Collapse(s: string, pending: bool, started: bool): string {
    if s == "" then ""
    else if IsSpace(s[0]) then Collapse(s[1..], true, started)
    else (if pending && started then " " else "") + [s[0]] + Collapse(s[1..], false, true)
  }

  /** Length of the literal, comment or single character the text starts with. */
  function PieceLen(s: string): (n: nat)
    requires s != ""
    ensures 0 < n <= |s|
  {
    match LiteralLen(s)
    case Some(n) => n
    case None =>
      match CommentLen(s)
      case Some(n) => n
      case None => 1
  }

  /** Literals are kept as they are, blanks inside comments are collapsed. */
  function Piece(s: string): string
    requires s != ""
  {
    if LiteralLen(s).None? && CommentLen(s).Some? then Collapse(s[..PieceLen(s)], false, false)
    else s[..PieceLen(s)]
  }

  function Normalised(s: string, pending: bool, started: bool): string
    decreases |s|
  {
    if s == "" then ""
    else if LiteralLen(s).None? && IsSpace(s[0]) then Normalised(s[1..], true, started)
    else (if pending && started then " " else "") + Piece(s) + Normalised(s[PieceLen(s)..], false, true)
  }

  function Normalise(s: string): string {
    Normalised(s, false, false)
  }

  /** The characters that are not whitespace, in order. */
  function Visible(s: string): string {
    if s == "" then "" else (if IsSpace(s[0]) then "" else [s[0]]) + Visible(s[1..])
  }

  lemma {:induction false} VisibleConcat(a: string, b: string)
    ensures Visible(a + b) == Visible(a) + Visible(b)
  {
    if a == "" {
      assert a + b == b;
    } else {
      assert (a + b)[1..] == a[1..] + b;
      VisibleConcat(a[1..], b);
    }
  }

  lemma {:induction false} CollapseKeepsVisible(s: string, pending: bool, started: bool)
    ensures Visible(Collapse(s, pending, started)) == Visible(s)
  {
    if s != "" && IsSpace(s[0]) {
      CollapseKeepsVisible(s[1..], true, started);
    } else if s != "" {
      var gap := if pending && started then " " else "";
      CollapseKeepsVisible(s[1..], false, true);
      VisibleConcat(gap, [s[0]]);
      VisibleConcat(gap + [s[0]], Collapse(s[1..], false, true));
    }
  }

  lemma PieceKeepsVisible(s: string)
    requires s != ""
    ensures Visible(Piece(s)) == Visible(s[..PieceLen(s)])
  {
    CollapseKeepsVisible(s[..PieceLen(s)], false, false);
  }

  lemma {:induction false} NormalisedKeepsVisible(s: string, pending: bool, started: bool)
    ensures Visible(Normalised(s, pending, started)) == Visible(s)
    decreases |s|
  {
    hide *;
    NormalisedStep(s, pending, started);
    if s == "" {
    } else if LiteralLen(s).None? && IsSpace(s[0]) {
      VisibleConcat(s[..1], s[1..]);
      assert s[..1] + s[1..] == s;
      NormalisedKeepsVisible(s[1..], true, started);
    } else {
      var gap := if pending && started then " " else "";
      var n := PieceLen(s);
      PieceKeepsVisible(s);
      NormalisedKeepsVisible(s[n..], false, true);
      VisibleConcat(gap, Piece(s));
      VisibleConcat(gap + Piece(s), Normalised(s[n..], false, true));
      VisibleConcat(s[..n], s[n..]);
      assert s[..n] + s[n..] == s;
    }
  }

  /** One turn of the normalisation, and that what it drops or puts in is invisible. */
  lemma NormalisedStep(s: string, pending: bool, started: bool)
    ensures var gap := if pending && started then " " else "";
            && Visible(gap) == ""
            && (if s == "" then Normalised(s, pending, started) == ""
                else if LiteralLen(s).None? && IsSpace(s[0]) then
                  Visible(s[..1]) == "" && Normalised(s, pending, started) == Normalised(s[1..], true, started)
                else Normalised(s, pending, started) == gap + Piece(s) + Normalised(s[PieceLen(s)..], false, true))
  {
    hide LiteralLen, Piece, PieceLen;
    assert Visible("") == "" && Visible(" ") == "";
    assert s != "" && IsSpace(s[0]) ==> Visible(s[..1]) == Visible(s[..1][1..]) == "";
  }

  /** Two texts that normalise alike hold the same visible characters in the same order. What a character
      belongs to, a comment or code, may still differ: see NormalForms. */
  lemma NormaliseDetectsVisibleChange(a: string, b: string)
    requires Normalise(a) == Normalise(b)
    ensures Visible(a) == Visible(b)
  {
    NormalisedKeepsVisible(a, false, false);
    NormalisedKeepsVisible(b, false, false);
  }

  // ----- The scan -----

  /** One turn of the scan: how much text it reads, the item prefix it leaves pending,
      and the (name, text) of a function that ends there. */
  datatype Turn = Turn(length: nat, prefix: Option<string>, item: Option<Item>)

  function Pending(prefix: Option<string>): string {
    match prefix
    case None => ""
    case Some(p) => p
  }

  function Grow(prefix: Option<string>, s: string): Option<string> {
    match prefix
    case None => None
    case Some(p) => Some(p + s)
  }

  predicate IsQualifier(w: string) {
    w == "pub" || w == "const" || w == "async" || w == "unsafe" || w == "extern" || w == "default"
  }

  predicate StartsOuterPrefix(s: string) {
    (At(s, 0, '#') && At(s, 1, '['))
    || (At(s, 0, '/') && At(s, 1, '/') && At(s, 2, '/'))
    || (At(s, 0, '/') && At(s, 1, '*') && At(s, 2, '*'))
  }

  function OuterPrefixLen(s: string): (n: nat)
    requires StartsOuterPrefix(s)
    ensures 0 < n <= |s|
  {
    if s[0] == '#' then 1 + MatchLen(s[1..], '[', ']', 0) else CommentLen(s).value
  }

  predicate StartsInnerAttribute(s: string) {
    At(s, 0, '#') && At(s, 1, '!') && At(s, 2, '[')
  }

  function InnerAttributeLen(s: string): (n: nat)
    requires StartsInnerAttribute(s)
    ensures 0 < n <= |s|
  {
    2 + MatchLen(s[2..], '[', ']', 0)
  }

  /** Length of a qualifier, with the `(crate)` of a restricted `pub`. */
  function QualifierLen(s: string): (n: nat)
    requires IsQualifier(s[..WordLen(s)])
    ensures 0 < n <= |s|
  {
    var w := WordLen(s);
    var blank := Spaces(s[w..]);
    if s[..w] == "pub" && At(s, w + blank, '(') then w + blank + MatchLen(s[w + blank..], '(', ')', 0)
    else w
  }

  /** Offset of the name after the keyword `fn`. */
  function NameAt(s: string): (n: nat)
    requires s[..WordLen(s)] == "fn"
    ensures 2 <= n <= |s|
  {
    WordLen(s) + Spaces(s[WordLen(s)..])
  }

  predicate StartsFunction(s: string) {
    s[..WordLen(s)] == "fn" && WordLen(s[NameAt(s)..]) > 0
  }

  function FunctionName(s: string): string
    requires StartsFunction(s)
  {
    s[NameAt(s)..][..WordLen(s[NameAt(s)..])]
  }

  /** Offset of the end of the name. */
  function NamedAt(s: string): (n: nat)
    requires StartsFunction(s)
    ensures 2 < n <= |s|
  {
    NameAt(s) + WordLen(s[NameAt(s)..])
  }

  function FunctionLen(s: string): (n: nat)
    requires StartsFunction(s)
    ensures 2 < n <= |s|
  {
    NamedAt(s) + BodyLen(s[NamedAt(s)..], OUTSIDE)
  }

  function Next(prefix: Option<string>, s: string): (t: Turn)
    requires s != ""
    ensures 0 < t.length <= |s|
  {
    if IsSpace(s[0]) then Turn(1, Grow(prefix, s[..1]), None)
    else if StartsOuterPrefix(s) then
      Turn(OuterPrefixLen(s), Some(Pending(prefix) + s[..OuterPrefixLen(s)]), None)
    else if StartsInnerAttribute(s) then Turn(InnerAttributeLen(s), None, None)
    else if SkipLen(s) != 0 then
      var keeps := s[0] == '/' || (prefix.Some? && s[0] == '"');
      Turn(SkipLen(s), if keeps then Grow(prefix, s[..SkipLen(s)]) else None, None)
    else if StartsFunction(s) then
      Turn(FunctionLen(s), None, Some((FunctionName(s), Pending(prefix) + s[..FunctionLen(s)])))
    else if IsQualifier(s[..WordLen(s)]) then
      Turn(QualifierLen(s), Some(Pending(prefix) + s[..QualifierLen(s)]), None)
    else Turn(if WordLen(s) > 0 then WordLen(s) else 1, None, None)
  }

  /** The functions of the remaining text with their exact texts, in order of appearance. */
  function Functions(prefix: Option<string>, s: string): seq<Item>
    decreases |s|
  {
    if s == "" then []
    else
      var t := Next(prefix, s);
      (if t.item.Some? then [t.item.value] else []) + Functions(t.prefix, s[t.length..])
  }

  function Counted(items: seq<Item>): multiset<Item> {
    if items == [] then multiset{}
    else multiset{(items[0].0, Normalise(items[0].1))} + Counted(items[1..])
  }

  /** The Counter that `fn_bodies` returns. */
  function Bodies(s: string): multiset<Item> {
    Counted(Functions(None, s))
  }

  lemma {:induction false} CountedConcat(a: seq<Item>, b: seq<Item>)
    ensures Counted(a + b) == Counted(a) + Counted(b)
  {
    if a == [] {
      assert a + b == b;
    } else {
      assert (a + b)[1..] == a[1..] + b;
      CountedConcat(a[1..], b);
    }
  }

  // ----- The reported texts are pieces of the file: in order, without overlap -----

  ghost predicate CutFrom(items: seq<Item>, text: string)
    decreases |items|
  {
    items == []
    || exists k :: 0 <= k <= |text| && HasPrefix(text[k..], items[0].1)
                   && CutFrom(items[1..], text[k..][|items[0].1|..])
  }

  lemma CutFromLater(items: seq<Item>, text: string, n: nat)
    requires n <= |text| && CutFrom(items, text[n..])
    ensures CutFrom(items, text)
  {
    if items != [] {
      var k :| 0 <= k <= |text[n..]| && HasPrefix(text[n..][k..], items[0].1)
               && CutFrom(items[1..], text[n..][k..][|items[0].1|..]);
      assert text[n..][k..] == text[n + k..];
    }
  }

  /** The step of the proof below for a turn that ends a function. */
  lemma CutFromHere(item: Item, items: seq<Item>, rest: string)
    requires CutFrom(items, rest)
    ensures CutFrom([item] + items, item.1 + rest)
  {
    var all, text := [item] + items, item.1 + rest;
    assert text[0..] == text && HasPrefix(text, all[0].1);
    assert text[0..][|all[0].1|..] == rest;
    assert all[1..] == items;
  }

  lemma {:induction false} FunctionsAreCutFromText(prefix: Option<string>, s: string)
    ensures CutFrom(Functions(prefix, s), Pending(prefix) + s)
    decreases |s|
  {
    hide *;
    if s == "" {
      NothingIsCut(prefix);
    } else {
      var t := Next(prefix, s);
      var read, rest := Pending(prefix) + s[..t.length], s[t.length..];
      FunctionsAreCutFromText(t.prefix, rest);
      FunctionsStep(prefix, s);
      assert Pending(prefix) + s == read + rest;
      TurnText(prefix, s);
      PendingIs(t.prefix);
      if t.item.Some? {
        assert "" + rest == rest;
        CutFromHere(t.item.value, Functions(t.prefix, rest), rest);
      } else {
        assert [] + Functions(t.prefix, rest) == Functions(t.prefix, rest);
        if t.prefix.None? {
          assert (read + rest)[|read|..] == rest == "" + rest;
          CutFromLater(Functions(t.prefix, rest), read + rest, |read|);
        }
      }
    }
  }

  lemma NothingIsCut(prefix: Option<string>)
    ensures CutFrom(Functions(prefix, ""), Pending(prefix) + "")
  {
  }

  lemma PendingIs(prefix: Option<string>)
    ensures Pending(prefix) == if prefix.None? then "" else prefix.value
  {
  }

  /** A turn hands on the text it has read as the pending prefix, reports it, or gives it up. */
  lemma TurnText(prefix: Option<string>, s: string)
    requires s != ""
    ensures var t := Next(prefix, s);
            var read := Pending(prefix) + s[..t.length];
            && (t.item.Some? ==> t.item.value.1 == read && t.prefix.None?)
            && (t.prefix.Some? ==> t.prefix.value == read)
  {
  }

  // ----- Well-delimited chunks -----

  /** The turn ends before the text does, and so does what it has to look at. */
  predicate TurnCloses(prefix: Option<string>, s: string)
    requires s != ""
  {
    var w := s[..WordLen(s)];
    && Next(prefix, s).length < |s|
    && (w == "fn" || w == "pub" ==> |w| + Spaces(s[|w|..]) < |s|)
  }

  /** Every literal, comment, bracket group and body that opens in the text closes before its end,
      and no attribute, doc comment or qualifier is left waiting for its item. */
  predicate Closes(prefix: Option<string>, s: string)
    decreases |s|
  {
    if s == "" then prefix.None?
    else
      && (IsSpace(s[0]) || TurnCloses(prefix, s))
      && Closes(Next(prefix, s).prefix, s[Next(prefix, s).length..])
  }

  predicate WellDelimited(chunk: string) {
    EndsCleanly(chunk) && Closes(None, chunk)
  }

  /** One function and a line break is a well-delimited chunk, and holds that function alone. */
  lemma FunctionChunk(s: string)
    requires EndsCleanly(s) && StartsFunction(s) && FunctionLen(s) == |s| - 1
    ensures WellDelimited(s)
    ensures Bodies(s) == multiset{(FunctionName(s), Normalise(s[..|s| - 1]))}
  {
    FunctionTurn(s);
    LineBreakChunk();
    hide Next, FunctionLen, FunctionName, Normalise, StartsFunction;
    var item := (FunctionName(s), s[..|s| - 1]);
    assert s[|s| - 1..] == "\n";
    assert Functions(None, s) == [item];
    assert Functions(None, s)[1..] == [];
    assert Counted([item]) == multiset{(item.0, Normalise(item.1))} + Counted([]);
  }

  lemma FunctionTurn(s: string)
    requires EndsCleanly(s) && StartsFunction(s) && FunctionLen(s) == |s| - 1
    ensures Next(None, s) == Turn(|s| - 1, None, Some((FunctionName(s), s[..|s| - 1])))
    ensures TurnCloses(None, s)
  {
    FunctionIsNoLexeme(s);
    hide FunctionLen, FunctionName, SkipLen;
    assert "" + s[..|s| - 1] == s[..|s| - 1];
  }

  lemma LineBreakChunk()
    ensures Functions(None, "\n") == [] && Closes(None, "\n")
  {
    assert Next(None, "\n") == Turn(1, None, None);
  }

  lemma FunctionIsNoLexeme(s: string)
    requires StartsFunction(s)
    ensures SkipLen(s) == 0 && s[0] == 'f' && NameAt(s) < |s|
  {
    var w := s[..WordLen(s)];
    assert w[0] == s[0];
  }

  lemma FunctionLocal(s: string, b: string)
    requires EndsCleanly(s) && StartsFunction(s) && FunctionLen(s) < |s|
    requires NameAt(s) < |s|
    ensures StartsFunction(s + b) && FunctionLen(s + b) == FunctionLen(s)
  {
    NameLocal(s, b);
    Cut(s, b, NamedAt(s));
    BodyLocal(s[NamedAt(s)..], b, OUTSIDE);
  }

  lemma NameLocal(s: string, b: string)
    requires EndsCleanly(s) && s[..WordLen(s)] == "fn" && NameAt(s) < |s|
    ensures (s + b)[..WordLen(s + b)] == "fn" && NameAt(s + b) == NameAt(s)
    ensures WordLen((s + b)[NameAt(s)..]) == WordLen(s[NameAt(s)..])
    ensures StartsFunction(s) ==> 
              StartsFunction(s + b) && FunctionName(s + b) == FunctionName(s) && NamedAt(s + b) == NamedAt(s)
  {
    WordLocal(s, b);
    Cut(s, b, 2);
    SpacesLocal(s[2..], b);
    Cut(s, b, NameAt(s));
    WordLocal(s[NameAt(s)..], b);
  }

  lemma QualifierLocal(s: string, b: string)
    requires EndsCleanly(s) && IsQualifier(s[..WordLen(s)]) && QualifierLen(s) < |s|
    requires s[..WordLen(s)] == "pub" ==> WordLen(s) + Spaces(s[WordLen(s)..]) < |s|
    ensures IsQualifier((s + b)[..WordLen(s + b)]) && QualifierLen(s + b) == QualifierLen(s)
  {
    WordLocal(s, b);
    var w := WordLen(s);
    Cut(s, b, w);
    if s[..w] == "pub" {
      SpacesLocal(s[w..], b);
      var at := w + Spaces(s[w..]);
      Cut(s, b, at);
      if s[at] == '(' {
        MatchLocal(s[at..], b, '(', ')', 0);
      }
    }
  }

  lemma OuterPrefixLocal(s: string, b: string)
    requires EndsCleanly(s)
    ensures StartsOuterPrefix(s + b) == StartsOuterPrefix(s) || s[0] == '\n'
    ensures StartsOuterPrefix(s) && OuterPrefixLen(s) < |s| ==> OuterPrefixLen(s + b) == OuterPrefixLen(s)
    ensures StartsInnerAttribute(s + b) == StartsInnerAttribute(s) || s[0] == '\n'
    ensures StartsInnerAttribute(s) && InnerAttributeLen(s) < |s| ==>
              InnerAttributeLen(s + b) == InnerAttributeLen(s)
  {
    Cut(s, b, 1);
    if StartsOuterPrefix(s) && OuterPrefixLen(s) < |s| {
      if s[0] == '#' {
        MatchLocal(s[1..], b, '[', ']', 0);
      } else {
        CommentLocal(s, b);
      }
    }
    if StartsInnerAttribute(s) && InnerAttributeLen(s) < |s| {
      Cut(s, b, 2);
      MatchLocal(s[2..], b, '[', ']', 0);
    }
  }

  lemma NextLocal(prefix: Option<string>, s: string, b: string)
    requires EndsCleanly(s) && (IsSpace(s[0]) || TurnCloses(prefix, s))
    ensures Next(prefix, s + b) == Next(prefix, s)
  {
    var t := Next(prefix, s);
    Cut(s, b, t.length);
    Cut(s, b, 1);
    if !IsSpace(s[0]) {
      OuterPrefixLocal(s, b);
      WordLocal(s, b);
      if !StartsOuterPrefix(s) && !StartsInnerAttribute(s) {
        SkipLocal(s, b);
        if SkipLen(s) == 0 {
          NextWordLocal(prefix, s, b);
        }
      }
    }
  }

  lemma NextWordLocal(prefix: Option<string>, s: string, b: string)
    requires EndsCleanly(s) && !IsSpace(s[0]) && TurnCloses(prefix, s)
    requires !StartsOuterPrefix(s) && !StartsInnerAttribute(s) && SkipLen(s) == 0
    requires !StartsOuterPrefix(s + b) && !StartsInnerAttribute(s + b) && SkipLen(s + b) == 0
    ensures Next(prefix, s + b) == Next(prefix, s)
  {
    WordLocal(s, b);
    var t := Next(prefix, s);
    Cut(s, b, t.length);
    if StartsFunction(s) {
      NameLocal(s, b);
      FunctionLocal(s, b);
    } else {
      if s[..WordLen(s)] == "fn" {
        NameLocal(s, b);
      }
      if IsQualifier(s[..WordLen(s)]) {
        QualifierLocal(s, b);
      }
    }
  }

  /** Scanning a closed text and then more text is scanning each by itself. */
  lemma {:induction false} FunctionsOfConcat(prefix: Option<string>, s: string, b: string)
    requires s == "" || EndsCleanly(s)
    requires Closes(prefix, s)
    ensures Functions(prefix, s + b) == Functions(prefix, s) + Functions(None, b)
    decreases |s|
  {
    hide *;
    if s == "" {
      NothingCloses(prefix);
      assert s + b == b;
    } else {
      var t := Next(prefix, s);
      ClosesStep(prefix, s);
      NextLocal(prefix, s, b);
      Cut(s, b, t.length);
      FunctionsStep(prefix, s);
      FunctionsStep(prefix, s + b);
      FunctionsOfConcat(t.prefix, s[t.length..], b);
    }
  }

  lemma NothingCloses(prefix: Option<string>)
    requires Closes(prefix, "")
    ensures prefix == None && Functions(prefix, "") == []
  {
  }

  lemma ClosesStep(prefix: Option<string>, s: string)
    requires s != "" && EndsCleanly(s) && Closes(prefix, s)
    ensures var t := Next(prefix, s);
            && (IsSpace(s[0]) || TurnCloses(prefix, s)) && Closes(t.prefix, s[t.length..])
            && (t.length < |s| ==> EndsCleanly(s[t.length..]))
  {
    hide Next, TurnCloses;
  }

  lemma FunctionsStep(prefix: Option<string>, s: string)
    requires s != ""
    ensures var t := Next(prefix, s);
            Functions(prefix, s) == (if t.item.Some? then [t.item.value] else []) + Functions(t.prefix, s[t.length..])
  {
    hide Next;
  }

  lemma BodiesOfConcat(chunk: string, rest: string)
    requires WellDelimited(chunk)
    ensures Bodies(chunk + rest) == Bodies(chunk) + Bodies(rest)
  {
    FunctionsOfConcat(None, chunk, rest);
    CountedConcat(Functions(None, chunk), Functions(None, rest));
  }

  // ----- Files made of chunks, and functions moved between them -----

  function Text(chunks: seq<string>): string {
    if chunks == [] then "" else chunks[0] + Text(chunks[1..])
  }

  /** The Counter that `side` returns for the texts of the listed files. */
  function Side(texts: seq<string>): multiset<Item> {
    Sum(Bodies, texts)
  }

  function Texts(files: seq<seq<string>>): seq<string> {
    if files == [] then [] else [Text(files[0])] + Texts(files[1..])
  }

  function Chunks(files: seq<seq<string>>): seq<string> {
    if files == [] then [] else files[0] + Chunks(files[1..])
  }

  /** The bodies of a file are the multiset sum of the bodies of its chunks. */
  lemma {:induction false} BodiesOfChunks(chunks: seq<string>)
    requires forall c :: c in chunks ==> WellDelimited(c)
    ensures Bodies(Text(chunks)) == Sum(Bodies, chunks)
  {
    if chunks != [] {
      BodiesOfConcat(chunks[0], Text(chunks[1..]));
      BodiesOfChunks(chunks[1..]);
    }
  }

  lemma {:induction false} TotalOfFiles(files: seq<seq<string>>)
    requires forall f, c :: f in files && c in f ==> WellDelimited(c)
    ensures Side(Texts(files)) == Sum(Bodies, Chunks(files))
  {
    if files != [] {
      BodiesOfChunks(files[0]);
      TotalOfFiles(files[1..]);
      SumConcat(Bodies, files[0], Chunks(files[1..]));
    }
  }

  // ----- The verdict -----

  datatype Verdict = Verdict(lost: set<string>, added: set<string>, changed: set<string>)

  const UNCHANGED := Verdict({}, {}, {})

  function Names(items: multiset<Item>): set<string> {
    set item | item in items :: item.0
  }

  function Compare(before: multiset<Item>, after: multiset<Item>): Verdict {
    var lost, added := Names(before - after), Names(after - before);
    var changed := lost * added;
    Verdict(lost - changed, added - changed, changed)
  }

  /** Some function of this name occurs less often on the second side. */
  ghost predicate Loses(before: multiset<Item>, after: multiset<Item>, name: string) {
    exists text :: before[(name, text)] > after[(name, text)]
  }

  lemma LosesIsName(before: multiset<Item>, after: multiset<Item>, name: string)
    ensures name in Names(before - after) <==> Loses(before, after, name)
  {
    if name in Names(before - after) {
      var item :| item in before - after && item.0 == name;
      assert before[(name, item.1)] > after[(name, item.1)];
    }
    if text :| before[(name, text)] > after[(name, text)] {
      assert (name, text) in before - after;
    }
  }

  /** What each of the three lists says about a name. */
  lemma CompareNames(before: multiset<Item>, after: multiset<Item>, name: string)
    ensures var v := Compare(before, after);
            var lost, added := Loses(before, after, name), Loses(after, before, name);
            && (name in v.changed <==> lost && added)
            && (name in v.lost <==> lost && !added)
            && (name in v.added <==> added && !lost)
  {
    LosesIsName(before, after, name);
    LosesIsName(after, before, name);
  }

  /** Nothing is reported exactly when the two sides hold the same functions equally often. */
  lemma CompareExact(before: multiset<Item>, after: multiset<Item>)
    ensures Compare(before, after) == UNCHANGED <==> before == after
  {
    if before != after {
      var x :| before[x] != after[x];
      assert before[(x.0, x.1)] != after[(x.0, x.1)];
      CompareNames(before, after, x.0);
    }
  }

  /** Moving whole chunks, within a file or between the listed files, is always accepted. */
  lemma MovesAreAccepted(before: seq<seq<string>>, after: seq<seq<string>>)
    requires forall f, c :: f in before && c in f ==> WellDelimited(c)
    requires forall f, c :: f in after && c in f ==> WellDelimited(c)
    requires multiset(Chunks(before)) == multiset(Chunks(after))
    ensures Compare(Side(Texts(before)), Side(Texts(after))) == UNCHANGED
  {
    TotalOfFiles(before);
    TotalOfFiles(after);
    SumOfPermutation(Bodies, Chunks(before), Chunks(after));
    CompareExact(Side(Texts(before)), Side(Texts(after)));
  }

  /** Editing one chunk, wherever the chunks end up, is accepted exactly when the chunk still holds functions
      of the same names and normal forms. When equal normal forms mean equal tokens is said in NormalForms. */
  lemma EditsAreReported(before: seq<seq<string>>, after: seq<seq<string>>,
                         rest: seq<string>, oldChunk: string, newChunk: string)
    requires forall f, c :: f in before && c in f ==> WellDelimited(c)
    requires forall f, c :: f in after && c in f ==> WellDelimited(c)
    requires multiset(Chunks(before)) == multiset([oldChunk] + rest)
    requires multiset(Chunks(after)) == multiset([newChunk] + rest)
    ensures Compare(Side(Texts(before)), Side(Texts(after))) == UNCHANGED <==> Bodies(oldChunk) == Bodies(newChunk)
  {
    TotalOfFiles(before);
    TotalOfFiles(after);
    SumOfPermutation(Bodies, Chunks(before), [oldChunk] + rest);
    SumOfPermutation(Bodies, Chunks(after), [newChunk] + rest);
    CompareExact(Side(Texts(before)), Side(Texts(after)));
    assert ([oldChunk] + rest)[1..] == rest == ([newChunk] + rest)[1..];
    Cancel(Bodies(oldChunk), Bodies(newChunk), Sum(Bodies, rest));
  }
}
