/** The layout block as a text: `_layout_paths` of scripts/check_doc_claims.py takes the block apart into its
    lines before it reads them. */
module LayoutBlock {
  import opened Prelude
  import opened LayoutTree

  /** Where the first line ends. */
  function LineEnd(s: string): (n: nat)
    ensures n <= |s|
  {
    if s == "" || IsBreak(s[0]) then 0 else 1 + LineEnd(s[1..])
  }

  /** `str.splitlines()` */
  function SplitLines(s: string): seq<string>
    decreases |s|
  {
    if s == "" then []
    else
      var n := LineEnd(s);
      if n == |s| then [s]
      else [s[..n]] + SplitLines(if HasPrefix(s[n..], "\r\n") then s[n + 2..] else s[n + 1..])
  }

  method LayoutPaths(block: string) returns (found: Found)
    ensures found == PathsOf(SplitLines(block), 1, [])
  {
    found := ReadLines(SplitLines(block));
  }

  /** The lines as a text, as the fenced block holds them. */
  function BlockText(lines: seq<string>): string {
    if lines == [] then ""
    else if |lines| == 1 then lines[0]
    else lines[0] + "\n" + BlockText(lines[1..])
  }

  /** An empty last line leaves no trace in the text. */
  function Visible(lines: seq<string>): seq<string> {
    if lines == [] || lines == [""] then [] else [lines[0]] + Visible(lines[1..])
  }

  lemma {:induction false} LineEndsAt(l: string, rest: string)
    requires OneLine(l) && (rest == "" || IsBreak(rest[0]))
    ensures LineEnd(l + rest) == |l|
  {
    hide IsBreak;
    if l == "" {
      assert l + rest == rest;
    } else {
      assert l[0] in l && forall c :: c in l[1..] ==> c in l;
      assert (l + rest)[1..] == l[1..] + rest;
      LineEndsAt(l[1..], rest);
    }
  }

  lemma FirstLine(l: string, more: string)
    requires OneLine(l)
    ensures SplitLines(l + "\n" + more) == [l] + SplitLines(more)
  {
    var rest := "\n" + more;
    var s := l + rest;
    assert l + "\n" + more == s && rest[0] == '\n' && IsBreak('\n');
    LineEndsAt(l, rest);
    assert s[..|l|] == l && s[|l|..] == rest && s[|l| + 1..] == more;
    assert !HasPrefix(rest, "\r\n") by {
      assert rest[..1][0] == '\n';
      assert |rest| >= 2 ==> rest[..2][0] == '\n';
    }
    hide LineEnd, HasPrefix, IsBreak;
  }

  /** A carriage return and a line feed are one break. */
  lemma CrLfIsOneBreak(l: string, more: string)
    requires OneLine(l)
    ensures SplitLines(l + "\r\n" + more) == [l] + SplitLines(more)
  {
    var rest := "\r\n" + more;
    var s := l + rest;
    assert l + "\r\n" + more == s && rest[0] == '\r' && IsBreak('\r') && rest[..2] == "\r\n";
    LineEndsAt(l, rest);
    assert s[..|l|] == l && s[|l|..] == rest && s[|l| + 2..] == more;
    hide LineEnd, IsBreak;
  }

  /** Splitting a block of lines gives the lines back. */
  lemma {:induction false} BlockIsSplit(lines: seq<string>)
    requires forall l :: l in lines ==> OneLine(l)
    ensures SplitLines(BlockText(lines)) == Visible(lines)
  {
    hide SplitLines, OneLine;
    if lines == [] {
      NoLines();
    } else {
      assert lines[0] in lines;
      if |lines| == 1 {
        assert lines == [lines[0]] && lines[1..] == [];
        LastLine(lines[0]);
      } else {
        FirstLine(lines[0], BlockText(lines[1..]));
        BlockIsSplit(lines[1..]);
      }
    }
  }

  lemma NoLines()
    ensures SplitLines("") == []
  {
  }

  lemma LastLine(l: string)
    requires OneLine(l)
    ensures SplitLines(l) == if l == "" then [] else [l]
  {
    assert l + "" == l;
    LineEndsAt(l, "");
    hide LineEnd, IsBreak;
  }

  lemma EmptyLineIsNoEntry(lineno: nat, parents: seq<string>)
    ensures PathsOf([""], lineno, parents) == []
  {
    assert Entry("") == None;
    assert PathsOf([""][1..], lineno + 1, parents) == [];
  }

  lemma {:induction false} VisibleLinesSuffice(lines: seq<string>, lineno: nat, parents: seq<string>)
    ensures PathsOf(Visible(lines), lineno, parents) == PathsOf(lines, lineno, parents)
  {
    hide LineFound, NextParents;
    if lines == [""] {
      EmptyLineIsNoEntry(lineno, parents);
    } else if lines != [] {
      VisibleLinesSuffice(lines[1..], lineno + 1, NextParents(parents, lines[0]));
      assert Visible(lines)[1..] == Visible(lines[1..]);
    }
  }

  // ----- Drawn lines -----

  lemma OneLineConcat(a: string, b: string)
    requires OneLine(a) && OneLine(b)
    ensures OneLine(a + b)
  {
    hide IsBreak;
    forall c | c in a + b
      ensures !IsBreak(c)
    {
      assert c in a || c in b;
    }
  }

  lemma GlyphsAreOneLine()
    ensures OneLine("│   ") && OneLine("    ") && OneLine("├── ") && OneLine("└── ")
    ensures OneLine("/") && OneLine(" · ") && OneLine(" ← ") && OneLine("")
  {
  }

  lemma {:induction false} PrefixIsOneLine(bars: seq<bool>)
    ensures OneLine(Prefix(bars))
  {
    hide OneLine;
    GlyphsAreOneLine();
    if bars != [] {
      PrefixIsOneLine(bars[1..]);
      OneLineConcat(if bars[0] then "│   " else "    ", Prefix(bars[1..]));
    }
  }

  lemma DrawnIsOneLine(bars: seq<bool>, more: bool, text: string)
    requires OneLine(text)
    ensures OneLine(DrawLine(bars, more, text))
  {
    hide OneLine;
    GlyphsAreOneLine();
    PrefixIsOneLine(bars);
    var glyph := if more then "├── " else "└── ";
    OneLineConcat(Prefix(bars), glyph);
    OneLineConcat(Prefix(bars) + glyph, text);
  }

  lemma NoteIsOneLine(note: Option<string>)
    requires OneLineNote(note)
    ensures OneLine(NoteLabel(note))
  {
    hide OneLine;
    GlyphsAreOneLine();
    if note.Some? {
      OneLineConcat(" ← ", note.value);
    }
  }

  lemma {:induction false} ShownAreOneLine(items: seq<Item>)
    requires forall item :: item in items ==> Clean(item.name)
    ensures forall name :: name in Shown(items) ==> OneLine(name)
  {
    GlyphsAreOneLine();
    if items != [] {
      assert Clean(items[0].name) && OneLine(items[0].name);
      hide OneLine, Clean;
      OneLineConcat(items[0].name, if items[0].isDir then "/" else "");
      ShownAreOneLine(items[1..]);
    }
  }

  lemma {:induction false} LabelIsOneLine(names: seq<string>)
    requires names != [] && forall name :: name in names ==> OneLine(name)
    ensures OneLine(NamesLabel(names))
  {
    hide OneLine;
    GlyphsAreOneLine();
    assert names[0] in names;
    if |names| > 1 {
      LabelIsOneLine(names[1..]);
      OneLineConcat(names[0], " · ");
      OneLineConcat(names[0] + " · ", NamesLabel(names[1..]));
    }
  }

  lemma DirIsOneLine(name: string, note: Option<string>, bars: seq<bool>, more: bool)
    requires OneLine(name) && OneLineNote(note)
    ensures OneLine(DrawLine(bars, more, name + "/" + NoteLabel(note)))
  {
    hide *;
    GlyphsAreOneLine();
    NoteIsOneLine(note);
    OneLineConcat(name, "/");
    OneLineConcat(name + "/", NoteLabel(note));
    DrawnIsOneLine(bars, more, name + "/" + NoteLabel(note));
  }

  lemma LeavesAreOneLine(items: seq<Item>, note: Option<string>, bars: seq<bool>, more: bool)
    requires CleanItems(items) && OneLineNote(note)
    ensures OneLine(DrawLine(bars, more, NamesLabel(Shown(items)) + NoteLabel(note)))
  {
    ShownAreOneLine(items);
    hide OneLine, Shown, NamesLabel, DrawLine;
    LabelIsOneLine(Shown(items));
    NoteIsOneLine(note);
    OneLineConcat(NamesLabel(Shown(items)), NoteLabel(note));
    DrawnIsOneLine(bars, more, NamesLabel(Shown(items)) + NoteLabel(note));
  }

  lemma {:induction false} NodeIsLines(n: Node, bars: seq<bool>, more: bool)
    requires CleanNode(n)
    ensures forall l :: l in DrawNode(n, bars, more) ==> OneLine(l)
    decreases n
  {
    hide OneLine, DrawLine, NoteLabel, Entry;
    match n
    case Remark(line) =>
    case Leaves(items, note) => LeavesAreOneLine(items, note, bars, more);
    case Dir(name, note, children) =>
      assert OneLine(name);
      DirIsOneLine(name, note, bars, more);
      ForestIsLines(children, bars + [more]);
  }

  lemma {:induction false} ForestIsLines(f: Forest, bars: seq<bool>)
    requires CleanForest(f)
    ensures forall l :: l in Draw(f, bars) ==> OneLine(l)
    decreases f
  {
    hide OneLine, DrawNode;
    if f.Cons? {
      NodeIsLines(f.head, bars, f.tail.Cons?);
      ForestIsLines(f.tail, bars);
    }
  }

  /** Reading the text of the drawing of any tree gives back its paths, in preorder and with their line numbers. */
  lemma BlockIsRead(f: Forest)
    requires CleanForest(f)
    ensures PathsOf(SplitLines(BlockText(Draw(f, []))), 1, []) == ForestPaths(f, 1, [])
  {
    hide *;
    var lines := Draw(f, []);
    ForestIsLines(f, []);
    BlockIsSplit(lines);
    VisibleLinesSuffice(lines, 1, []);
    DrawingIsRead(f);
  }
}
