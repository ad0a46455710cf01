/** The reader of the README's layout tree: `_layout_paths` of scripts/check_doc_claims.py. */
module LayoutTree {
  import opened Prelude

  // ----- Text -----

  function LeftStrip(s: string): string {
    if s != "" && IsSpace(s[0]) then LeftStrip(s[1..]) else s
  }

  function RightStrip(s: string): string {
    if s != "" && IsSpace(s[|s| - 1]) then RightStrip(s[..|s| - 1]) else s
  }

  /** `str.strip()` */
  function Strip(s: string): string {
    RightStrip(LeftStrip(s))
  }

  /** `str.rstrip("/")` */
  function WithoutSlashes(s: string): string {
    if s != "" && s[|s| - 1] == '/' then WithoutSlashes(s[..|s| - 1]) else s
  }

  /** `str.split(c)[0]` */
  function Before(s: string, c: char): string {
    if s == "" || s[0] == c then "" else [s[0]] + Before(s[1..], c)
  }

  /** `str.split(c)` */
  function Split(s: string, c: char): (parts: seq<string>)
    ensures parts != []
  {
    if s == "" then [""]
    else
      var parts := Split(s[1..], c);
      if s[0] == c then [""] + parts else [[s[0]] + parts[0]] + parts[1..]
  }

  /** `"/".join(names)` */
  function Join(names: seq<string>): string {
    if names == [] then ""
    else if |names| == 1 then names[0]
    else names[0] + "/" + Join(names[1..])
  }

  /** The stripped parts that are not blank. */
  function Stripped(parts: seq<string>): seq<string> {
    if parts == [] then []
    else (if Strip(parts[0]) == "" then [] else [Strip(parts[0])]) + Stripped(parts[1..])
  }

  // ----- One line -----

  /** The line starts with a 4-column prefix: a bar or a space, and three spaces. */
  predicate StartsWithColumn(s: string) {
    |s| >= 4 && (s[0] == '│' || IsSpace(s[0])) && forall k :: 1 <= k < 4 ==> IsSpace(s[k])
  }

  function Columns(s: string): (n: nat)
    ensures 4 * n <= |s|
  {
    if StartsWithColumn(s) then 1 + Columns(s[4..]) else 0
  }

  /** Nesting depth and label of a line of the tree; None for any other line. */
  function Entry(raw: string): Option<(nat, string)> {
    var depth := Columns(raw);
    var rest := raw[4 * depth..];
    if HasPrefix(rest, "├── ") || HasPrefix(rest, "└── ") then Some((depth, rest[4..])) else None
  }

  /** The names a label lists. */
  function Siblings(entry: string): seq<string> {
    Stripped(Split(Strip(Before(entry, '←')), '·'))
  }

  /** Every column is a bar or a blank with three blanks behind it. */
  predicate HasColumns(raw: string, depth: nat) {
    4 * depth <= |raw|
    && forall k :: 0 <= k < 4 * depth ==> IsSpace(raw[k]) || (raw[k] == '│' && k % 4 == 0)
  }

  lemma {:induction false} ColumnsAre(raw: string, depth: nat)
    requires 4 * depth <= |raw| && (HasPrefix(raw[4 * depth..], "├── ") || HasPrefix(raw[4 * depth..], "└── "))
    ensures Columns(raw) == depth <==> HasColumns(raw, depth)
    decreases depth
  {
    hide IsSpace;
    assert !IsSpace('├') && !IsSpace('└') by {
      GlyphsAreNoBlanks();
    }
    var rest := raw[4 * depth..];
    assert rest[0] == rest[..4][0];
    if depth == 0 {
      assert raw[0..] == raw;
    } else if StartsWithColumn(raw) {
      assert raw[4..][4 * (depth - 1)..] == rest;
      ColumnsAre(raw[4..], depth - 1);
      assert forall k :: 0 <= k < 4 * (depth - 1) ==> raw[4..][k] == raw[k + 4] && (k + 4) % 4 == k % 4;
      if HasColumns(raw[4..], depth - 1) {
        forall k | 0 <= k < 4 * depth
          ensures IsSpace(raw[k]) || (raw[k] == '│' && k % 4 == 0)
        {
          if k >= 4 {
            assert raw[4..][k - 4] == raw[k] && (k - 4) % 4 == k % 4;
          }
        }
      }
    }
  }

  lemma GlyphsAreNoBlanks()
    ensures !IsSpace('├') && !IsSpace('└')
  {
  }

  /** A line belongs to the tree, at this depth and with this label, exactly when it is that many columns, a branch
      and the label. */
  lemma EntryIs(raw: string, depth: nat, text: string)
    ensures Entry(raw) == Some((depth, text)) <==>
              && HasColumns(raw, depth)
              && (raw[4 * depth..] == "├── " + text || raw[4 * depth..] == "└── " + text)
  {
    hide Columns, HasColumns;
    if Entry(raw) == Some((depth, text)) {
      var rest := raw[4 * depth..];
      assert rest == rest[..4] + rest[4..];
      ColumnsAre(raw, depth);
    }
    if 4 * depth <= |raw| && (raw[4 * depth..] == "├── " + text || raw[4 * depth..] == "└── " + text) {
      assert raw[4 * depth..][..4] == "├── " || raw[4 * depth..][..4] == "└── ";
      assert raw[4 * depth..][4..] == text;
      ColumnsAre(raw, depth);
    }
    ColumnsFit(raw, depth);
  }

  lemma ColumnsFit(raw: string, depth: nat)
    ensures HasColumns(raw, depth) ==> 4 * depth <= |raw|
  {
  }

  /** A path comes apart into the names it was joined from. */
  lemma {:induction false} JoinComesApart(names: seq<string>)
    requires names != [] && forall name :: name in names ==> '/' !in name
    ensures Split(Join(names), '/') == names
  {
    hide Split;
    assert names[0] in names;
    if |names| == 1 {
      SplitWithout(names[0], '/');
      assert names == [names[0]];
    } else {
      JoinComesApart(names[1..]);
      assert Join(names) == names[0] + ['/'] + Join(names[1..]);
      SplitAfter(names[0], '/', Join(names[1..]));
      assert names == [names[0]] + names[1..];
    }
  }

  // ----- The reader -----

  type Found = seq<(nat, string)>

  /** The paths of names that lie below the given directories. */
  function Listed(lineno: nat, parents: seq<string>, names: seq<string>): (found: Found)
    ensures |found| == |names|
  {
    if names == [] then []
    else [(lineno, Join(parents + [WithoutSlashes(names[0])]))] + Listed(lineno, parents, names[1..])
  }

  function UpTo(parents: seq<string>, depth: nat): seq<string> {
    if depth <= |parents| then parents[..depth] else parents
  }

  predicate EndsInSlash(s: string) {
    s != "" && s[|s| - 1] == '/'
  }

  /** What a line adds to the list of paths. */
  function LineFound(parents: seq<string>, lineno: nat, raw: string): Found {
    match Entry(raw)
    case None => []
    case Some((depth, entry)) => Listed(lineno, UpTo(parents, depth), Siblings(entry))
  }

  /** The stack after a line: a single directory can parent the lines below it. */
  function NextParents(parents: seq<string>, raw: string): seq<string> {
    match Entry(raw)
    case None => parents
    case Some((depth, entry)) =>
      var names := Siblings(entry);
      UpTo(parents, depth) + if |names| == 1 && EndsInSlash(names[0]) then [WithoutSlashes(names[0])] else []
  }

  function PathsOf(lines: seq<string>, lineno: nat, parents: seq<string>): Found {
    if lines == [] then []
    else LineFound(parents, lineno, lines[0]) + PathsOf(lines[1..], lineno + 1, NextParents(parents, lines[0]))
  }

  function StackAfter(lines: seq<string>, parents: seq<string>): seq<string> {
    if lines == [] then parents else StackAfter(lines[1..], NextParents(parents, lines[0]))
  }

  /** The inner loop, over the names on one line. */
  method AddSiblings(before: Found, lineno: nat, parents: seq<string>, siblings: seq<string>) returns (found: Found)
    ensures found == before + Listed(lineno, parents, siblings)
  {
    hide Join, WithoutSlashes;
    found := before;
    for i := 0 to |siblings|
      invariant found + Listed(lineno, parents, siblings[i..]) == before + Listed(lineno, parents, siblings)
    {
      assert siblings[i..][1..] == siblings[i + 1..];
      found := found + [(lineno, Join(parents + [WithoutSlashes(siblings[i])]))];
    }
  }

  /** The body of the loop over the lines. */
  method ReadLine(before: Found, lineno: nat, stack: seq<string>, raw: string) returns (found: Found, parents: seq<string>)
    ensures found == before + LineFound(stack, lineno, raw)
    ensures parents == NextParents(stack, raw)
  {
    hide Siblings, Listed, WithoutSlashes, EndsInSlash;
    found, parents := before, stack;
    assert before + [] == before;
    var entry := Entry(raw);
    hide Entry;
    if entry.Some? {
      var depth := entry.value.0;
      if depth < |parents| {
        parents := parents[..depth];
      }
      assert parents == UpTo(stack, depth);
      var siblings := Siblings(entry.value.1);
      found := AddSiblings(found, lineno, parents, siblings);
      if |siblings| == 1 && EndsInSlash(siblings[0]) {
        parents := parents + [WithoutSlashes(siblings[0])];
      }
    }
  }

  /** The loop over the lines of the block. */
  method ReadLines(lines: seq<string>) returns (found: Found)
    ensures found == PathsOf(lines, 1, [])
  {
    hide LineFound, NextParents;
    var parents: seq<string> := [];
    found := [];
    for k := 0 to |lines|
      invariant found + PathsOf(lines[k..], k + 1, parents) == PathsOf(lines, 1, [])
    {
      assert lines[k..][1..] == lines[k + 1..];
      found, parents := ReadLine(found, k + 1, parents, lines[k]);
    }
  }

  lemma {:induction false} PathsOfConcat(a: seq<string>, b: seq<string>, lineno: nat, parents: seq<string>)
    ensures PathsOf(a + b, lineno, parents) == PathsOf(a, lineno, parents) + PathsOf(b, lineno + |a|, StackAfter(a, parents))
    ensures StackAfter(a + b, parents) == StackAfter(b, StackAfter(a, parents))
  {
    hide LineFound, NextParents;
    if a == [] {
      assert a + b == b;
    } else {
      assert (a + b)[1..] == a[1..] + b;
      PathsOfConcat(a[1..], b, lineno + 1, NextParents(parents, a[0]));
    }
  }

  // ----- Drawing a tree -----

  /** A name as a line lists it, directories with a slash behind them. */
  datatype Item = Item(name: string, isDir: bool)

  /** A line of names, a directory with what lies in it, or a line that is not part of the tree. */
  datatype Node =
    | Leaves(items: seq<Item>, note: Option<string>)
    | Dir(name: string, note: Option<string>, children: Forest)
    | Remark(line: string)

  datatype Forest = Nil | Cons(head: Node, tail: Forest)

  /** A character at which `str.splitlines()` ends a line. */
  predicate IsBreak(c: char) {
    var u := c as int;
    10 <= u <= 13 || 28 <= u <= 30 || u == 0x85 || u == 0x2028 || u == 0x2029
  }

  predicate OneLine(s: string) {
    forall c :: c in s ==> !IsBreak(c)
  }

  predicate OneLineNote(note: Option<string>) {
    note.Some? ==> OneLine(note.value)
  }

  /** The name has no separator or line break in it, and no white space or slash at its ends that reading would
      drop. */
  predicate Clean(name: string) {
    && OneLine(name) && name != "" && '←' !in name && '·' !in name
    && !IsSpace(name[0]) && !IsSpace(name[|name| - 1]) && name[|name| - 1] != '/'
  }

  /** A directory that stands alone on its line is a `Dir`, with or without children. */
  predicate CleanItems(items: seq<Item>) {
    && items != [] && (forall item :: item in items ==> Clean(item.name))
    && (|items| == 1 ==> !items[0].isDir)
  }

  predicate CleanNode(n: Node) {
    match n
    case Leaves(items, note) => CleanItems(items) && OneLineNote(note)
    case Dir(name, note, children) => Clean(name) && OneLineNote(note) && CleanForest(children)
    case Remark(line) => OneLine(line) && Entry(line).None?
  }

  predicate CleanForest(f: Forest) {
    f.Cons? ==> CleanNode(f.head) && CleanForest(f.tail)
  }

  /** The prefix of the lines below ancestors that have (true) or have not (false) later siblings. */
  function Prefix(bars: seq<bool>): string {
    if bars == [] then "" else (if bars[0] then "│   " else "    ") + Prefix(bars[1..])
  }

  /** The names as they are drawn. */
  function Shown(items: seq<Item>): (names: seq<string>)
    ensures |names| == |items|
  {
    if items == [] then [] else [items[0].name + if items[0].isDir then "/" else ""] + Shown(items[1..])
  }

  function NamesLabel(names: seq<string>): string
    requires names != []
  {
    if |names| == 1 then names[0] else names[0] + " · " + NamesLabel(names[1..])
  }

  function NoteLabel(note: Option<string>): string {
    if note.Some? then " ← " + note.value else ""
  }

  function DrawLine(bars: seq<bool>, more: bool, text: string): string {
    Prefix(bars) + (if more then "├── " else "└── ") + text
  }

  function DrawNode(n: Node, bars: seq<bool>, more: bool): seq<string>
    requires CleanNode(n)
  {
    match n
    case Leaves(items, note) => [DrawLine(bars, more, NamesLabel(Shown(items)) + NoteLabel(note))]
    case Dir(name, note, children) =>
      [DrawLine(bars, more, name + "/" + NoteLabel(note))] + Draw(children, bars + [more])
    case Remark(line) => [line]
  }

  function Draw(f: Forest, bars: seq<bool>): seq<string>
    requires CleanForest(f)
  {
    if f.Nil? then [] else DrawNode(f.head, bars, f.tail.Cons?) + Draw(f.tail, bars)
  }

  function NamesPaths(items: seq<Item>, lineno: nat, ancestors: seq<string>): Found {
    if items == [] then [] else [(lineno, Join(ancestors + [items[0].name]))] + NamesPaths(items[1..], lineno, ancestors)
  }

  /** The paths of a forest in preorder, with the numbers of the lines that draw them. */
  function NodePaths(n: Node, lineno: nat, ancestors: seq<string>): Found {
    match n
    case Leaves(items, _) => NamesPaths(items, lineno, ancestors)
    case Dir(name, _, children) =>
      [(lineno, Join(ancestors + [name]))] + ForestPaths(children, lineno + 1, ancestors + [name])
    case Remark(_) => []
  }

  function ForestPaths(f: Forest, lineno: nat, ancestors: seq<string>): Found {
    if f.Nil? then []
    else NodePaths(f.head, lineno, ancestors) + ForestPaths(f.tail, lineno + NodeLines(f.head), ancestors)
  }

  function NodeLines(n: Node): nat {
    if n.Dir? then 1 + ForestLines(n.children) else 1
  }

  function ForestLines(f: Forest): nat {
    if f.Nil? then 0 else NodeLines(f.head) + ForestLines(f.tail)
  }

  // ----- Reading one drawn line -----

  lemma {:induction false} ColumnsOfPrefix(bars: seq<bool>, rest: string)
    requires Columns(rest) == 0
    ensures |Prefix(bars)| == 4 * |bars| && Columns(Prefix(bars) + rest) == |bars|
  {
    if bars == [] {
      assert Prefix(bars) + rest == rest;
    } else {
      ColumnsOfPrefix(bars[1..], rest);
      var s := Prefix(bars) + rest;
      assert s[4..] == Prefix(bars[1..]) + rest;
      assert s[..4] == if bars[0] then "│   " else "    ";
      assert s[0] == s[..4][0] && s[1] == s[..4][1] && s[2] == s[..4][2] && s[3] == s[..4][3];
    }
  }

  lemma EntryOfLine(bars: seq<bool>, more: bool, text: string)
    ensures Entry(DrawLine(bars, more, text)) == Some((|bars|, text))
  {
    var glyph := if more then "├── " else "└── ";
    ColumnsOfPrefix(bars, glyph + text);
    var raw := DrawLine(bars, more, text);
    assert raw == Prefix(bars) + (glyph + text);
    assert raw[4 * |bars|..] == glyph + text;
    assert (glyph + text)[..4] == glyph && (glyph + text)[4..] == text;
  }

  lemma {:induction false} BeforeAppended(s: string, c: char, tail: string)
    requires c !in s && (tail == "" || tail[0] == c)
    ensures Before(s + tail, c) == s
  {
    if s == "" {
      assert s + tail == tail;
    } else {
      assert (s + tail)[1..] == s[1..] + tail;
      BeforeAppended(s[1..], c, tail);
    }
  }

  /** Stripping leaves a text that has no white space at its ends, and drops one space around it. */
  lemma StripSpaced(s: string)
    requires s != "" && !IsSpace(s[0]) && !IsSpace(s[|s| - 1])
    ensures Strip(s) == Strip(s + " ") == Strip(" " + s) == Strip(" " + s + " ") == s
  {
    assert (s + " ")[..|s|] == s;
    assert (" " + s)[1..] == s;
    assert (" " + s + " ")[1..] == s + " ";
  }

  lemma {:induction false} SplitWithout(s: string, c: char)
    requires c !in s
    ensures Split(s, c) == [s]
  {
    if s != "" {
      SplitWithout(s[1..], c);
      assert [s[0]] + s[1..] == s;
    }
  }

  lemma {:induction false} SplitAfter(s: string, c: char, tail: string)
    requires c !in s
    ensures Split(s + [c] + tail, c) == [s] + Split(tail, c)
  {
    if s == "" {
      assert s + [c] + tail == [c] + tail;
      assert ([c] + tail)[1..] == tail;
    } else {
      assert (s + [c] + tail)[1..] == s[1..] + [c] + tail;
      SplitAfter(s[1..], c, tail);
      assert [s[0]] + s[1..] == s;
    }
  }

  /** Stripping and splitting leave the name as it is. */
  predicate Readable(name: string) {
    name != "" && '←' !in name && '·' !in name && !IsSpace(name[0]) && !IsSpace(name[|name| - 1])
  }

  /** The names of a label come apart again, also behind the space that follows a separator. */
  lemma {:induction false} NamesComeApart(names: seq<string>)
    requires names != [] && forall name :: name in names ==> Readable(name)
    ensures '←' !in NamesLabel(names)
    ensures var s := NamesLabel(names); s != "" && !IsSpace(s[0]) && !IsSpace(s[|s| - 1])
    ensures Stripped(Split(NamesLabel(names), '·')) == Stripped(Split(" " + NamesLabel(names), '·')) == names
  {
    hide IsSpace, Strip, Split;
    var name := names[0];
    assert name in names;
    StripSpaced(name);
    if |names| == 1 {
      SplitWithout(name, '·');
      SplitWithout(" " + name, '·');
      assert names == [name];
    } else {
      var rest := names[1..];
      NamesComeApart(rest);
      var tail := " " + NamesLabel(rest);
      assert NamesLabel(names) == name + " " + ['·'] + tail;
      assert " " + NamesLabel(names) == " " + name + " " + ['·'] + tail;
      SplitAfter(name + " ", '·', tail);
      SplitAfter(" " + name + " ", '·', tail);
      assert names == [name] + rest;
    }
  }

  lemma LabelIsStripped(s: string, note: Option<string>)
    requires s != "" && '←' !in s && !IsSpace(s[0]) && !IsSpace(s[|s| - 1])
    ensures Strip(Before(s + NoteLabel(note), '←')) == s
  {
    hide IsSpace, Strip, Before;
    StripSpaced(s);
    match note
    case None =>
      assert s + NoteLabel(note) == s + "";
      BeforeAppended(s, '←', "");
    case Some(t) =>
      assert s + NoteLabel(note) == (s + " ") + ("← " + t);
      BeforeAppended(s + " ", '←', "← " + t);
  }

  lemma SiblingsOfNames(names: seq<string>, note: Option<string>)
    requires names != [] && forall name :: name in names ==> Readable(name)
    ensures Siblings(NamesLabel(names) + NoteLabel(note)) == names
  {
    NamesComeApart(names);
    LabelIsStripped(NamesLabel(names), note);
  }

  lemma DirLabel(name: string)
    requires Clean(name)
    ensures Readable(name) && Readable(name + "/")
    ensures WithoutSlashes(name) == WithoutSlashes(name + "/") == name
  {
    assert (name + "/")[..|name|] == name && WithoutSlashes(name) == name;
  }

  lemma SiblingsOfDir(name: string, note: Option<string>)
    requires Clean(name)
    ensures Siblings(name + "/" + NoteLabel(note)) == [name + "/"] && WithoutSlashes(name + "/") == name
  {
    DirLabel(name);
    hide IsSpace, Strip, Before, Split, Clean, WithoutSlashes, NoteLabel;
    var s := name + "/";
    LabelIsStripped(s, note);
    StripSpaced(s);
    SplitWithout(s, '·');
    assert Stripped([s]) == [s] + Stripped([]);
  }

  // ----- Reading a drawn tree -----

  lemma {:induction false} ShownAreReadable(items: seq<Item>)
    requires forall item :: item in items ==> Clean(item.name)
    ensures forall name :: name in Shown(items) ==> Readable(name)
  {
    hide Clean, Readable;
    if items != [] {
      var item, rest := items[0], Shown(items[1..]);
      assert Clean(item.name);
      DirLabel(item.name);
      ShownAreReadable(items[1..]);
      assert item.name + "" == item.name;
    }
  }

  lemma {:induction false} ListedNames(items: seq<Item>, lineno: nat, ancestors: seq<string>)
    requires forall item :: item in items ==> Clean(item.name)
    ensures Listed(lineno, ancestors, Shown(items)) == NamesPaths(items, lineno, ancestors)
  {
    hide Join, Clean, WithoutSlashes;
    if items != [] {
      var item := items[0];
      assert Clean(item.name);
      DirLabel(item.name);
      assert item.name + "" == item.name;
      ListedNames(items[1..], lineno, ancestors);
    }
  }

  /** The ancestors of the nodes drawn behind `bars` are the bottom of the stack, whatever lies above. */
  predicate StackHolds(parents: seq<string>, bars: seq<bool>, ancestors: seq<string>) {
    |ancestors| == |bars| && ancestors <= parents
  }

  /** A drawn line is read below its ancestors, and the stack then ends with them and what it opens. */
  lemma DrawnLineIsRead(bars: seq<bool>, more: bool, text: string, lineno: nat, parents: seq<string>, ancestors: seq<string>)
    requires StackHolds(parents, bars, ancestors)
    ensures var line, names := DrawLine(bars, more, text), Siblings(text);
            && PathsOf([line], lineno, parents) == Listed(lineno, ancestors, names)
            && StackAfter([line], parents) ==
               ancestors + if |names| == 1 && EndsInSlash(names[0]) then [WithoutSlashes(names[0])] else []
  {
    EntryOfLine(bars, more, text);
    hide Entry, Siblings, WithoutSlashes, Listed, DrawLine, EndsInSlash;
    assert UpTo(parents, |bars|) == ancestors;
    var line := DrawLine(bars, more, text);
    assert [line][1..] == [];
  }

  lemma LeavesAreRead(items: seq<Item>, note: Option<string>, bars: seq<bool>, more: bool, lineno: nat, parents: seq<string>,
                      ancestors: seq<string>)
    requires CleanNode(Leaves(items, note)) && StackHolds(parents, bars, ancestors)
    ensures PathsOf(DrawNode(Leaves(items, note), bars, more), lineno, parents) == NamesPaths(items, lineno, ancestors)
    ensures StackAfter(DrawNode(Leaves(items, note), bars, more), parents) == ancestors
  {
    var names := Shown(items);
    assert |items| == 1 ==> Clean(items[0].name) && names[0] == items[0].name + "" == items[0].name;
    assert |names| == 1 ==> !EndsInSlash(names[0]);
    hide Siblings, WithoutSlashes, Join, Clean, PathsOf, StackAfter, DrawLine, EndsInSlash, Shown, Readable;
    ShownAreReadable(items);
    SiblingsOfNames(names, note);
    ListedNames(items, lineno, ancestors);
    DrawnLineIsRead(bars, more, NamesLabel(names) + NoteLabel(note), lineno, parents, ancestors);
  }

  lemma DirIsRead(name: string, note: Option<string>, bars: seq<bool>, more: bool, lineno: nat, parents: seq<string>,
                  ancestors: seq<string>)
    requires Clean(name) && StackHolds(parents, bars, ancestors)
    ensures var line := DrawLine(bars, more, name + "/" + NoteLabel(note));
            && PathsOf([line], lineno, parents) == [(lineno, Join(ancestors + [name]))]
            && StackAfter([line], parents) == ancestors + [name]
  {
    SiblingsOfDir(name, note);
    DrawnLineIsRead(bars, more, name + "/" + NoteLabel(note), lineno, parents, ancestors);
    hide Siblings, WithoutSlashes, Join, Clean, PathsOf, StackAfter, DrawLine;
    assert [name + "/"][1..] == [];
  }

  lemma {:induction false} DrawnNodeIsRead(n: Node, bars: seq<bool>, more: bool, lineno: nat, parents: seq<string>, ancestors: seq<string>)
    requires CleanNode(n) && StackHolds(parents, bars, ancestors)
    ensures PathsOf(DrawNode(n, bars, more), lineno, parents) == NodePaths(n, lineno, ancestors)
    ensures StackHolds(StackAfter(DrawNode(n, bars, more), parents), bars, ancestors)
    ensures |DrawNode(n, bars, more)| == NodeLines(n)
    decreases n
  {
    match n
    case Remark(line) =>
      hide Entry;
      assert [line][1..] == [];
    case Leaves(items, note) =>
      LeavesAreRead(items, note, bars, more, lineno, parents, ancestors);
    case Dir(name, note, children) =>
      hide Siblings, WithoutSlashes, Join, Clean, PathsOf, StackAfter, DrawLine, NoteLabel;
      var line := DrawLine(bars, more, name + "/" + NoteLabel(note));
      var below := Draw(children, bars + [more]);
      DirIsRead(name, note, bars, more, lineno, parents, ancestors);
      DrawnForestIsRead(children, bars + [more], lineno + 1, ancestors + [name], ancestors + [name]);
      PathsOfConcat([line], below, lineno, parents);
  }

  lemma {:induction false} DrawnForestIsRead(f: Forest, bars: seq<bool>, lineno: nat, parents: seq<string>, ancestors: seq<string>)
    requires CleanForest(f) && StackHolds(parents, bars, ancestors)
    ensures PathsOf(Draw(f, bars), lineno, parents) == ForestPaths(f, lineno, ancestors)
    ensures StackHolds(StackAfter(Draw(f, bars), parents), bars, ancestors)
    ensures |Draw(f, bars)| == ForestLines(f)
    decreases f
  {
    hide *;
    DrawStep(f, bars, lineno, ancestors);
    if f.Cons? {
      var first, rest := DrawNode(f.head, bars, f.tail.Cons?), Draw(f.tail, bars);
      DrawnNodeIsRead(f.head, bars, f.tail.Cons?, lineno, parents, ancestors);
      DrawnForestIsRead(f.tail, bars, lineno + |first|, StackAfter(first, parents), ancestors);
      PathsOfConcat(first, rest, lineno, parents);
    } else {
      NothingDrawn(lineno, parents);
    }
  }

  lemma DrawStep(f: Forest, bars: seq<bool>, lineno: nat, ancestors: seq<string>)
    requires CleanForest(f)
    ensures f.Nil? ==> Draw(f, bars) == [] && ForestPaths(f, lineno, ancestors) == [] && ForestLines(f) == 0
    ensures f.Cons? ==>
              && CleanNode(f.head) && CleanForest(f.tail)
              && Draw(f, bars) == DrawNode(f.head, bars, f.tail.Cons?) + Draw(f.tail, bars)
              && ForestPaths(f, lineno, ancestors) ==
                 NodePaths(f.head, lineno, ancestors) + ForestPaths(f.tail, lineno + NodeLines(f.head), ancestors)
              && ForestLines(f) == NodeLines(f.head) + ForestLines(f.tail)
  {
  }

  lemma NothingDrawn(lineno: nat, parents: seq<string>)
    ensures PathsOf([], lineno, parents) == [] && StackAfter([], parents) == parents
  {
  }

  /** Reading the lines of the drawing of any tree gives back its paths, in preorder and with their line numbers. */
  lemma DrawingIsRead(f: Forest)
    requires CleanForest(f)
    ensures PathsOf(Draw(f, []), 1, []) == ForestPaths(f, 1, [])
  {
    DrawnForestIsRead(f, [], 1, [], []);
  }
}
