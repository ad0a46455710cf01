/** A printer for edit scripts in the unified format of `git diff`, and what the parser makes of it:
    it gives the scripts back exactly when no changed line is mistaken for something else. */
module DiffRoundTrip {
  import opened Prelude
  import opened Decimal
  import opened GitLabels
  import opened UnifiedDiff

  /** One line of a hunk; `NoNewline` is git's marker for a last line without a line break. */
  datatype Change = Context(text: string) | Added(text: string) | Removed(text: string) | NoNewline

  datatype Hunk = Hunk(oldStart: nat, newStart: nat, section: string, changes: seq<Change>)

  datatype Kind = Modified | New | Deleted

  /** The edit of one file; without hunks (a pure rename, a mode change) git prints headers alone. */
  datatype FileEdit = FileEdit(oldPath: string, newPath: string, kind: Kind, headers: seq<string>, hunks: seq<Hunk>)

  // ----- Printing -----

  function OldCount(changes: seq<Change>): nat {
    if changes == [] then 0
    else (if changes[0].Context? || changes[0].Removed? then 1 else 0) + OldCount(changes[1..])
  }

  function NewCount(changes: seq<Change>): nat {
    if changes == [] then 0
    else (if changes[0].Context? || changes[0].Added? then 1 else 0) + NewCount(changes[1..])
  }

  function Range(start: nat, count: nat): string {
    if count == 1 then Numeral(start) else Numeral(start) + "," + Numeral(count)
  }

  function HunkHeader(h: Hunk): string {
    "@@ -" + Range(h.oldStart, OldCount(h.changes)) + " +" + Range(h.newStart, NewCount(h.changes)) + " @@" + h.section
  }

  function ChangeLine(c: Change): string {
    match c
    case Context(t) => " " + t
    case Added(t) => "+" + t
    case Removed(t) => "-" + t
    case NoNewline => "\\ No newline at end of file"
  }

  function ChangeLines(changes: seq<Change>): seq<string> {
    if changes == [] then [] else [ChangeLine(changes[0])] + ChangeLines(changes[1..])
  }

  function HunkLines(hunks: seq<Hunk>): seq<string> {
    if hunks == [] then []
    else ([HunkHeader(hunks[0])] + ChangeLines(hunks[0].changes)) + HunkLines(hunks[1..])
  }

  function SideLine(mark: string, side: char, path: string): string {
    mark + Label(side, path) + TabAfter(Label(side, path))
  }

  function SideLines(f: FileEdit): seq<string> {
    [if f.kind.New? then "--- /dev/null" else SideLine("--- ", 'a', f.oldPath),
     if f.kind.Deleted? then "+++ /dev/null" else SideLine("+++ ", 'b', f.newPath)]
  }

  function GitLine(f: FileEdit): string {
    "diff --git " + Label('a', f.oldPath) + " " + Label('b', f.newPath)
  }

  function FileLines(f: FileEdit): seq<string> {
    [GitLine(f)] + f.headers
    + (if f.hunks == [] then [] else SideLines(f) + HunkLines(f.hunks))
  }

  function DiffLines(files: seq<FileEdit>): seq<string> {
    if files == [] then [] else FileLines(files[0]) + DiffLines(files[1..])
  }

  function Text(ls: seq<string>): string {
    if ls == [] then "" else ls[0] + "\n" + Text(ls[1..])
  }

  // ----- What a printed diff may contain -----

  predicate OneLine(t: string) {
    '\n' !in t
  }

  /** An extended header line: `index`, `new file mode`, `similarity index` and their like. */
  predicate ExtendedHeader(l: string) {
    OneLine(l) && !At(l, 0, '+') && !At(l, 0, '-') && !At(l, 0, '@') && !HasPrefix(l, "diff --git")
  }

  predicate PrintableHunk(h: Hunk) {
    h.newStart <= U64_MAX && OneLine(h.section)
    && forall c :: c in h.changes && !c.NoNewline? ==> OneLine(c.text)
  }

  predicate Printable(f: FileEdit) {
    (forall l :: l in f.headers ==> ExtendedHeader(l))
    && (forall h :: h in f.hunks ==> PrintableHunk(h))
  }

  // ----- What the parser should answer -----

  /** The positions of the changed lines, the next line of the new file being number `at`:
      an added line has its own number, a removed line the number of the line it stood before. In a hunk that
      shows no line of the new file `git` gives the line before it as the start, and a removed line has that. */
  function Positions(changes: seq<Change>, at: nat): seq<nat> {
    if changes == [] then []
    else
      var rest := changes[1..];
      match changes[0]
      case Context(_) => Positions(rest, at + 1)
      case Added(_) => [at] + Positions(rest, at + 1)
      case Removed(_) => [at] + Positions(rest, at)
      case NoNewline => Positions(rest, at)
  }

  function HunkPositions(hunks: seq<Hunk>): seq<nat> {
    if hunks == [] then [] else Positions(hunks[0].changes, hunks[0].newStart) + HunkPositions(hunks[1..])
  }

  /** The path a record is about: the old one of a deleted file, else the new one. */
  function PathOf(f: FileEdit): string {
    if f.kind.Deleted? then f.oldPath else f.newPath
  }

  function Record(f: FileEdit): FileHunk {
    FileHunk(PathOf(f), HunkPositions(f.hunks), f.kind.New?, f.kind.Deleted?)
  }

  /** One record for every file printed with hunks. An empty new file, a pure rename and a change of mode are
      printed with headers alone. */
  function Records(files: seq<FileEdit>): seq<FileHunk> {
    if files == [] then []
    else (if files[0].hunks == [] then [] else [Record(files[0])]) + Records(files[1..])
  }

  // ----- When it does -----

  /** The line is told apart from the `---` and `+++` lines by the parser. */
  predicate Unmistakable(c: Change) {
    match c
    case Added(t) => !HasPrefix(t, "++")
    case Removed(t) => !HasPrefix(t, "--")
    case _ => true
  }

  predicate IsChanged(c: Change) {
    c.Added? || c.Removed?
  }

  /** No changed line comes after a no-newline marker, which the parser counts as a line. */
  predicate MarkersLast(changes: seq<Change>) {
    changes == []
    || ((changes[0].NoNewline? ==> forall c :: c in changes[1..] ==> !IsChanged(c)) && MarkersLast(changes[1..]))
  }

  /** The path is written as it is. The other case is a rename that adds just the tab that git puts behind
      the old name. */
  predicate PlainPath(f: FileEdit) {
    || (' ' !in PathOf(f) && !Quoted(PathOf(f)))
    || (f.kind.Modified? && !Quoted(f.oldPath) && ' ' in f.oldPath && f.newPath == f.oldPath + "\t")
  }

  predicate Clean(f: FileEdit) {
    && (f.hunks != [] ==> PlainPath(f))
    && forall h :: h in f.hunks ==> MarkersLast(h.changes) && forall c :: c in h.changes ==> Unmistakable(c)
  }

  // ----- One printed line -----

  function Stripped(ls: seq<string>): seq<string> {
    if ls == [] then [] else [StripCr(ls[0])] + Stripped(ls[1..])
  }

  lemma {:induction false} StrippedConcat(a: seq<string>, b: seq<string>)
    ensures Stripped(a + b) == Stripped(a) + Stripped(b)
  {
    if a == [] {
      assert a + b == b;
    } else {
      assert (a + b)[1..] == a[1..] + b;
      StrippedConcat(a[1..], b);
    }
  }

  /** A printed text has the lines it was printed from, up to a final carriage return. */
  lemma {:induction false} LinesOfText(ls: seq<string>)
    requires forall l :: l in ls ==> OneLine(l)
    ensures Lines(Text(ls)) == Stripped(ls)
  {
    if ls != [] {
      var l, rest := ls[0], Text(ls[1..]);
      LinesOfText(ls[1..]);
      assert Text(ls) == l + "\n" + rest;
      BreakAfter(l, rest);
      assert Text(ls)[..|l|] == l && Text(ls)[|l| + 1..] == rest;
    }
  }

  lemma BreakAfter(l: string, rest: string)
    requires OneLine(l)
    ensures Find(l + "\n" + rest, "\n") == Some(|l|)
  {
    var text := l + "\n" + rest;
    assert HasPrefix(text[|l|..], "\n");
    FindIsFirst(text, "\n");
    forall k | 0 <= k < |l|
      ensures !HasPrefix(text[k..], "\n")
    {
      assert text[k..][..1][0] == l[k];
    }
  }

  /** Which of the parser's prefixes a line can have is settled by its first character. */
  lemma PrefixesByFirst(l: string)
    ensures !(At(l, 0, 'd')) ==> !HasPrefix(l, "diff --git")
    ensures !(At(l, 0, '@')) ==> !HasPrefix(l, "@@ ")
    ensures !(At(l, 0, '+')) ==> !HasPrefix(l, "+") && !HasPrefix(l, "+++ b/") && !HasPrefix(l, "+++ /dev/null")
    ensures !(At(l, 0, '-')) ==> !HasPrefix(l, "-") && !HasPrefix(l, "--- a/") && !HasPrefix(l, "--- /dev/null")
  {
    assert HasPrefix(l, "diff --git") ==> l[..10][0] == 'd';
    assert HasPrefix(l, "@@ ") ==> l[..3][0] == '@';
    assert HasPrefix(l, "+") ==> l[..1][0] == '+';
    assert HasPrefix(l, "+++ b/") ==> l[..6][0] == '+';
    assert HasPrefix(l, "+++ /dev/null") ==> l[..13][0] == '+';
    assert HasPrefix(l, "-") ==> l[..1][0] == '-';
    assert HasPrefix(l, "--- a/") ==> l[..6][0] == '-';
    assert HasPrefix(l, "--- /dev/null") ==> l[..13][0] == '-';
  }

  lemma StripCrKeepsFirst(c: char, t: string)
    requires c != '\r'
    ensures StripCr([c] + t) == [c] + StripCr(t)
  {
  }

  /** The state after a change line that the parser reads as what it is. */
  function Absorbed(st: State, c: Change): State {
    match c
    case Context(_) => st.(line := st.line + 1)
    case Added(_) => st.(lines := st.lines + [st.line], line := st.line + 1)
    case Removed(_) => st.(lines := st.lines + [st.line])
    case NoNewline => st.(line := st.line + 1)
  }

  /** A change line is refused, or absorbed, or mistaken and then not recorded. */
  lemma ChangeStep(st: State, c: Change)
    ensures var r := Step(st, StripCr(ChangeLine(c)));
            r == Err(TOO_LARGE)
            || (r.Ok? && r.value.hunks == st.hunks
                && if Unmistakable(c) then r.value == Absorbed(st, c) else r.value.lines == st.lines)
    ensures Unmistakable(c) || IsChanged(c)
  {
    hide ParseHunkHeader, HasPrefix;
    var l := StripCr(ChangeLine(c));
    PrefixesByFirst(l);
    match c {
      case Context(t) => StripCrKeepsFirst(' ', t);
      case NoNewline =>
      case Added(t) => AddedPrefixes(t);
      case Removed(t) => RemovedPrefixes(t);
    }
  }

  lemma AddedPrefixes(t: string)
    ensures var l := StripCr("+" + t);
            && At(l, 0, '+') && HasPrefix(l, "+")
            && (HasPrefix(l, "+++") <==> HasPrefix(t, "++"))
            && (HasPrefix(l, "+++ b/") || HasPrefix(l, "+++ /dev/null") ==> HasPrefix(l, "+++"))
  {
    StripCrKeepsFirst('+', t);
    var l := StripCr("+" + t);
    assert HasPrefix(l, "+++ b/") ==> l[..6][..3] == l[..3];
    assert HasPrefix(l, "+++ /dev/null") ==> l[..13][..3] == l[..3];
    TwoOf('+', t);
  }

  lemma RemovedPrefixes(t: string)
    ensures var l := StripCr("-" + t);
            && At(l, 0, '-') && HasPrefix(l, "-")
            && (HasPrefix(l, "---") <==> HasPrefix(t, "--"))
            && (HasPrefix(l, "--- a/") || HasPrefix(l, "--- /dev/null") ==> HasPrefix(l, "---"))
  {
    StripCrKeepsFirst('-', t);
    var l := StripCr("-" + t);
    assert HasPrefix(l, "--- a/") ==> l[..6][..3] == l[..3];
    assert HasPrefix(l, "--- /dev/null") ==> l[..13][..3] == l[..3];
    TwoOf('-', t);
  }

  lemma TwoOf(c: char, t: string)
    requires c != '\r'
    ensures HasPrefix([c] + StripCr(t), [c, c, c]) <==> HasPrefix(t, [c, c])
  {
    var l := [c] + StripCr(t);
    if HasPrefix(l, [c, c, c]) {
      assert l[..3] == [c, c, c];
      assert t[0] == l[1] == l[..3][1] && t[1] == l[2] == l[..3][2];
      assert t[..2] == [c, c];
    }
    if HasPrefix(t, [c, c]) {
      assert t[0] == t[..2][0] == c && t[1] == t[..2][1] == c;
      assert l[..3] == [c, c, c];
    }
  }

  lemma HeaderStep(st: State, l: string)
    requires ExtendedHeader(l)
    ensures var r := Step(st, StripCr(l));
            r == Err(TOO_LARGE) || r == Ok(st.(line := st.line + 1))
  {
    hide ParseHunkHeader, HasPrefix;
    var s := StripCr(l);
    PrefixesByFirst(s);
    DiffPrefix(l);
  }

  lemma DiffPrefix(l: string)
    ensures HasPrefix(StripCr(l), "diff --git") ==> HasPrefix(l, "diff --git")
  {
  }

  // ----- The hunk header -----

  lemma {:induction false} IndexOfFirst(a: string, rest: string, chars: set<char>)
    requires forall x :: x in a ==> x !in chars
    requires rest != "" && rest[0] in chars
    ensures IndexOf(a + rest, chars) == Some(|a|)
  {
    if a == "" {
      assert a + rest == rest;
    } else {
      assert (a + rest)[0] == a[0] && a[0] in a;
      assert (a + rest)[1..] == a[1..] + rest;
      IndexOfFirst(a[1..], rest, chars);
    }
  }

  lemma RangeChars(start: nat, count: nat)
    ensures forall x :: x in Range(start, count) ==> IsDigit(x) || x == ','
  {
  }

  /** A header of this shape is read as the start of its new range. */
  lemma HeaderShape(front: string, start: nat, tail: string)
    requires forall x :: x in front ==> x != '+'
    requires start <= U64_MAX && tail != "" && (tail[0] == ',' || tail[0] == ' ')
    ensures ParseHunkHeader(front + ("+" + (Numeral(start) + tail))) == Some(start)
  {
    hide Numeral, ParseU64, IndexOf;
    var n := Numeral(start);
    var l := front + ("+" + (n + tail));
    IndexOfFirst(front, "+" + (n + tail), {'+'});
    assert l[|front| + 1..] == n + tail;
    IndexOfFirst(n, tail, {',', ' '});
    assert (n + tail)[..|n|] == n;
    ParseOfNumeral(start);
  }

  /** The text of a hunk header around the start of its new range. */
  lemma HunkHeaderText(h: Hunk) returns (front: string, tail: string)
    requires PrintableHunk(h)
    ensures StripCr(HunkHeader(h)) == front + ("+" + (Numeral(h.newStart) + tail))
    ensures |front| >= 3 && front[0] == '@' && front[..3] == "@@ " && '+' !in front
    ensures tail != "" && (tail[0] == ',' || tail[0] == ' ')
  {
    hide Numeral, StripCr;
    var n, count := Numeral(h.newStart), NewCount(h.changes);
    front := "@@ -" + Range(h.oldStart, OldCount(h.changes)) + " ";
    var whole := (if count == 1 then "" else "," + Numeral(count)) + " @@" + h.section;
    RangeChars(h.oldStart, OldCount(h.changes));
    assert HunkHeader(h) == (front + "+" + n) + whole;
    StripCrOfTail(front + "+" + n, whole);
    tail := StripCr(whole);
    assert (front + "+" + n) + tail == front + ("+" + (n + tail));
  }

  lemma AtSignStep(st: State, l: string)
    requires At(l, 0, '@') && HasPrefix(l, "@@ ") && ParseHunkHeader(l).Some?
    ensures Step(st, l) == Ok(st.(line := ParseHunkHeader(l).value))
  {
    PrefixesByFirst(l);
    hide HasPrefix, ParseHunkHeader;
  }

  lemma HunkHeaderStep(st: State, h: Hunk)
    requires PrintableHunk(h)
    ensures Step(st, StripCr(HunkHeader(h))) == Ok(st.(line := h.newStart))
  {
    hide Numeral, StripCr, ParseHunkHeader, Step, HunkHeader;
    var front, tail := HunkHeaderText(h);
    HeaderShape(front, h.newStart, tail);
    var l := front + ("+" + (Numeral(h.newStart) + tail));
    assert l[..3] == front[..3];
    AtSignStep(st, l);
  }

  lemma StripCrOfTail(a: string, b: string)
    requires |b| >= 2
    ensures StripCr(a + b) == a + StripCr(b) && StripCr(b) != "" && StripCr(b)[0] == b[0]
  {
  }

  // ----- Runs over a hunk, a file, a diff -----

  function Changed(changes: seq<Change>): nat {
    if changes == [] then 0 else (if IsChanged(changes[0]) then 1 else 0) + Changed(changes[1..])
  }

  predicate AllUnmistakable(changes: seq<Change>) {
    forall c :: c in changes ==> Unmistakable(c)
  }

  /** The positions the parser records: like `Positions`, but a marker counts as a line. */
  function Recorded(changes: seq<Change>, at: nat): seq<nat> {
    if changes == [] then []
    else
      var rest := changes[1..];
      match changes[0]
      case Context(_) => Recorded(rest, at + 1)
      case Added(_) => [at] + Recorded(rest, at + 1)
      case Removed(_) => [at] + Recorded(rest, at)
      case NoNewline => Recorded(rest, at + 1)
  }

  lemma {:induction false} ChangesRun(st: State, changes: seq<Change>)
    ensures var r := Run(st, Stripped(ChangeLines(changes)));
            r == Err(TOO_LARGE)
            || (r.Ok? && r.value.hunks == st.hunks
                && (|r.value.lines| == |st.lines| + Changed(changes) <==> AllUnmistakable(changes))
                && |r.value.lines| <= |st.lines| + Changed(changes)
                && (AllUnmistakable(changes) ==>
                      r.value.lines == st.lines + Recorded(changes, st.line)
                      && r.value.file == st.file && r.value.isNew == st.isNew && r.value.isDeleted == st.isDeleted))
    decreases |changes|
  {
    hide Step, ChangeLine, StripCr, Unmistakable;
    if changes != [] {
      ChangeStep(st, changes[0]);
      var r := Step(st, StripCr(ChangeLine(changes[0])));
      var lines := Stripped(ChangeLines(changes));
      assert lines[0] == StripCr(ChangeLine(changes[0]));
      assert lines[1..] == Stripped(ChangeLines(changes[1..]));
      assert AllUnmistakable(changes) <==> Unmistakable(changes[0]) && AllUnmistakable(changes[1..]);
      if r.Ok? {
        ChangesRun(r.value, changes[1..]);
        var rest := Recorded(changes[1..], Absorbed(st, changes[0]).line);
        assert IsChanged(changes[0]) ==> st.lines + ([st.line] + rest) == (st.lines + [st.line]) + rest;
      }
    }
  }

  function RecordedHunks(hunks: seq<Hunk>): seq<nat> {
    if hunks == [] then [] else Recorded(hunks[0].changes, hunks[0].newStart) + RecordedHunks(hunks[1..])
  }

  function ChangedHunks(hunks: seq<Hunk>): nat {
    if hunks == [] then 0 else Changed(hunks[0].changes) + ChangedHunks(hunks[1..])
  }

  predicate HunksUnmistakable(hunks: seq<Hunk>) {
    forall h :: h in hunks ==> AllUnmistakable(h.changes)
  }

  lemma OneHunkRun(st: State, h: Hunk)
    requires PrintableHunk(h)
    ensures var lines := Stripped([HunkHeader(h)] + ChangeLines(h.changes));
            Run(st, lines) == Run(st.(line := h.newStart), Stripped(ChangeLines(h.changes)))
  {
    hide Step, HunkHeader, StripCr;
    HunkHeaderStep(st, h);
    var lines := Stripped([HunkHeader(h)] + ChangeLines(h.changes));
    assert ([HunkHeader(h)] + ChangeLines(h.changes))[1..] == ChangeLines(h.changes);
    assert lines[0] == StripCr(HunkHeader(h)) && lines[1..] == Stripped(ChangeLines(h.changes));
  }

  lemma {:induction false} HunksRun(st: State, hunks: seq<Hunk>)
    requires forall h :: h in hunks ==> PrintableHunk(h)
    ensures var r := Run(st, Stripped(HunkLines(hunks)));
            r == Err(TOO_LARGE)
            || (r.Ok? && r.value.hunks == st.hunks
                && (|r.value.lines| == |st.lines| + ChangedHunks(hunks) <==> HunksUnmistakable(hunks))
                && |r.value.lines| <= |st.lines| + ChangedHunks(hunks)
                && (HunksUnmistakable(hunks) ==>
                      r.value.lines == st.lines + RecordedHunks(hunks)
                      && r.value.file == st.file && r.value.isNew == st.isNew && r.value.isDeleted == st.isDeleted))
    decreases |hunks|
  {
    hide Step, HunkHeader, StripCr, AllUnmistakable, PrintableHunk;
    if hunks != [] {
      var h, rest := hunks[0], hunks[1..];
      var first := [HunkHeader(h)] + ChangeLines(h.changes);
      OneHunkRun(st, h);
      ChangesRun(st.(line := h.newStart), h.changes);
      StrippedConcat(first, HunkLines(rest));
      RunConcat(st, Stripped(first), Stripped(HunkLines(rest)));
      assert HunksUnmistakable(hunks) <==> AllUnmistakable(h.changes) && HunksUnmistakable(rest);
      if Run(st, Stripped(first)).Ok? {
        HunksRun(Run(st, Stripped(first)).value, rest);
        var mine := Recorded(h.changes, h.newStart);
        assert st.lines + (mine + RecordedHunks(rest)) == (st.lines + mine) + RecordedHunks(rest);
      }
    }
  }

  lemma {:induction false} HeadersRun(st: State, headers: seq<string>)
    requires forall l :: l in headers ==> ExtendedHeader(l)
    ensures var r := Run(st, Stripped(headers));
            r == Err(TOO_LARGE) || (r.Ok? && r.value == st.(line := r.value.line))
    decreases |headers|
  {
    hide Step, StripCr, ExtendedHeader;
    if headers != [] {
      HeaderStep(st, headers[0]);
      assert Stripped(headers)[1..] == Stripped(headers[1..]);
      if Step(st, StripCr(headers[0])).Ok? {
        HeadersRun(Step(st, StripCr(headers[0])).value, headers[1..]);
      }
    }
  }

  // ----- Where the recorded positions are the true ones -----

  lemma {:induction false} RecordedLength(changes: seq<Change>, at: nat)
    ensures |Recorded(changes, at)| == |Positions(changes, at)| == Changed(changes)
    decreases |changes|
  {
    if changes != [] {
      RecordedLength(changes[1..], at);
      RecordedLength(changes[1..], at + 1);
      PositionsLength(changes, at);
    }
  }

  lemma {:induction false} PositionsLength(changes: seq<Change>, at: nat)
    ensures |Positions(changes, at)| == Changed(changes)
    decreases |changes|
  {
    if changes != [] {
      PositionsLength(changes[1..], at);
      PositionsLength(changes[1..], at + 1);
    }
  }

  /** Counted from a later line, the recorded positions differ unless there are none. */
  lemma {:induction false} RecordedLater(changes: seq<Change>, at: nat, later: nat)
    requires at < later
    ensures Recorded(changes, later) == Positions(changes, at) <==> forall c :: c in changes ==> !IsChanged(c)
    decreases |changes|
  {
    if changes != [] {
      var rest := changes[1..];
      assert (forall c :: c in changes ==> !IsChanged(c)) <==>
             (!IsChanged(changes[0]) && forall c :: c in rest ==> !IsChanged(c));
      match changes[0] {
        case Context(_) => RecordedLater(rest, at + 1, later + 1);
        case NoNewline => RecordedLater(rest, at, later + 1);
        case Added(_) =>
          assert Recorded(changes, later)[0] == later && Positions(changes, at)[0] == at;
        case Removed(_) =>
          assert Recorded(changes, later)[0] == later && Positions(changes, at)[0] == at;
      }
    }
  }

  lemma {:induction false} RecordedExact(changes: seq<Change>, at: nat)
    ensures Recorded(changes, at) == Positions(changes, at) <==> MarkersLast(changes)
    decreases |changes|
  {
    if changes != [] {
      var rest := changes[1..];
      match changes[0] {
        case Context(_) => RecordedExact(rest, at + 1);
        case NoNewline =>
          RecordedLater(rest, at, at + 1);
          if forall c :: c in rest ==> !IsChanged(c) {
            NothingAfterMarker(rest);
          }
        case Added(_) =>
          RecordedExact(rest, at + 1);
          SameTail(at, Recorded(rest, at + 1), Positions(rest, at + 1));
        case Removed(_) =>
          RecordedExact(rest, at);
          SameTail(at, Recorded(rest, at), Positions(rest, at));
      }
    }
  }

  lemma SameTail(x: nat, a: seq<nat>, b: seq<nat>)
    ensures [x] + a == [x] + b <==> a == b
  {
    assert ([x] + a)[1..] == a && ([x] + b)[1..] == b;
  }

  lemma {:induction false} NothingAfterMarker(changes: seq<Change>)
    requires forall c :: c in changes ==> !IsChanged(c)
    ensures MarkersLast(changes)
    decreases |changes|
  {
    if changes != [] {
      NothingAfterMarker(changes[1..]);
    }
  }

  lemma SameParts<T>(a: seq<T>, b: seq<T>, c: seq<T>, d: seq<T>)
    requires |a| == |b|
    ensures a + c == b + d <==> a == b && c == d
  {
    if a + c == b + d {
      assert a == (a + c)[..|a|] == (b + d)[..|a|] == b;
      assert c == (a + c)[|a|..] == (b + d)[|a|..] == d;
    }
  }

  lemma {:induction false} HunksExact(hunks: seq<Hunk>)
    ensures RecordedHunks(hunks) == HunkPositions(hunks) <==> forall h :: h in hunks ==> MarkersLast(h.changes)
    ensures |HunkPositions(hunks)| == |RecordedHunks(hunks)| == ChangedHunks(hunks)
    decreases |hunks|
  {
    hide MarkersLast, Positions, Recorded;
    if hunks != [] {
      var h, rest := hunks[0], hunks[1..];
      HunksExact(rest);
      RecordedExact(h.changes, h.newStart);
      RecordedLength(h.changes, h.newStart);
      SameParts(Recorded(h.changes, h.newStart), Positions(h.changes, h.newStart), RecordedHunks(rest), HunkPositions(rest));
      assert (forall x :: x in hunks ==> MarkersLast(x.changes)) <==>
             (MarkersLast(h.changes) && forall x :: x in rest ==> MarkersLast(x.changes));
    }
  }

  // ----- A file -----

  /** Between two files: whatever was pending, nothing is recorded for a file not yet named. */
  predicate BetweenFiles(st: State) {
    st.file.None? ==> st.lines == []
  }

  function Opened(st: State): State {
    State(Flushed(st), None, if st.file.Some? then [] else st.lines, st.line, false, false)
  }

  lemma GitLineStep(st: State, f: FileEdit)
    ensures Step(st, StripCr(GitLine(f))) == Ok(Opened(st))
  {
    hide Label;
    var l := GitLine(f);
    assert l[..10] == "diff --git";
    assert |StripCr(l)| >= 10 && StripCr(l)[..10] == l[..10];
  }

  /** The path an unquoted side line gives, None when the line is quoted. */
  function ReadPath(path: string): Option<string> {
    if Quoted(path) then None else Some(Shown(path))
  }

  /** The path under which the changes of a file are recorded, None when neither side line gives one. */
  function SidePath(f: FileEdit): Option<string> {
    match f.kind
    case New => ReadPath(f.newPath)
    case Deleted => ReadPath(f.oldPath)
    case Modified => if Quoted(f.newPath) then ReadPath(f.oldPath) else ReadPath(f.newPath)
  }

  /** It is the file's own path exactly when that is plain. */
  lemma SidePathIsPath(f: FileEdit)
    ensures SidePath(f) == Some(PathOf(f)) <==> PlainPath(f)
  {
    forall path: string
      ensures Quoted(path + "\t")
    {
      assert '\t' in path + "\t" && Unusual('\t');
    }
    hide Quoted;
    assert Shown(f.newPath) == f.newPath <==> ' ' !in f.newPath;
    assert Shown(f.oldPath) == f.oldPath <==> ' ' !in f.oldPath;
  }

  lemma SideLineText(mark: string, side: char, path: string)
    requires |mark| == 4 && (side == 'a' || side == 'b')
    ensures var l := SideLine(mark, side, path);
            && StripCr(l) == l && |l| > 4 && l[..4] == mark
            && (Quoted(path) ==> l[4] == '"')
            && (!Quoted(path) ==> l == (mark + [side] + "/") + Shown(path))
  {
    hide Quoted, Label, Shown;
    LabelShape(side, path);
    LabelHasNoBreak(side, path);
    var tag, l := Label(side, path), SideLine(mark, side, path);
    assert l == mark + (tag + TabAfter(tag));
    assert l[|l| - 1] in tag + TabAfter(tag);
    assert !Quoted(path) ==> mark + ([side] + "/" + Shown(path)) == (mark + [side] + "/") + Shown(path);
  }

  lemma LabelShape(side: char, path: string)
    requires side == 'a' || side == 'b'
    ensures var text := Label(side, path);
            && text != "" && (Quoted(path) ==> text[0] == '"')
            && (!Quoted(path) ==> text + TabAfter(text) == [side] + "/" + Shown(path))
  {
    hide Quoted, Escaped;
    assert !Quoted(path) ==> (' ' in Label(side, path) <==> ' ' in path);
  }

  lemma PrefixAt(l: string, p: string, k: nat)
    requires k < |p|
    ensures HasPrefix(l, p) ==> At(l, k, p[k])
  {
    if HasPrefix(l, p) {
      assert l[..|p|][k] == p[k];
    }
  }

  lemma QuotedSideStep(st: State, l: string)
    requires |l| > 4 && (l[..4] == "--- " || l[..4] == "+++ ") && l[4] == '"'
    ensures Step(st, l) == Advance(st)
  {
    var first := l[..4][0];
    assert l[0] == first;
    PrefixesByFirst(l);
    PrefixAt(l, "--- a/", 4);
    PrefixAt(l, "+++ b/", 4);
    PrefixAt(l, "--- /dev/null", 4);
    PrefixAt(l, "+++ /dev/null", 4);
    assert first == '-' ==> l[..3] == l[..4][..3] == "---";
    assert first == '+' ==> l[..3] == l[..4][..3] == "+++";
  }

  lemma OldSideStep(st: State, f: FileEdit)
    requires st.file.None? && !st.isNew
    ensures Step(st, StripCr(SideLines(f)[0])) ==
            if f.kind.New? then Ok(st.(isNew := true))
            else if Quoted(f.oldPath) then Advance(st)
            else Ok(st.(file := ReadPath(f.oldPath)))
  {
    hide Quoted, ParseHunkHeader, Label, TabAfter, Advance, Shown;
    var l := SideLines(f)[0];
    if f.kind.New? {
      assert l[..6] == "--- /d" && l[..13] == "--- /dev/null" && StripCr(l) == l;
      PrefixesByFirst(l);
    } else {
      SideLineText("--- ", 'a', f.oldPath);
      hide SideLine;
      if Quoted(f.oldPath) {
        QuotedSideStep(st, l);
      } else {
        assert l[..6] == "--- a/" && l[6..] == Shown(f.oldPath) && l[0] == '-';
        PrefixesByFirst(l);
      }
    }
  }

  lemma NewSideStep(st: State, f: FileEdit)
    requires !st.isDeleted
    ensures Step(st, StripCr(SideLines(f)[1])) ==
            if f.kind.Deleted? then Ok(st.(isDeleted := true))
            else if Quoted(f.newPath) then Advance(st)
            else Ok(st.(file := ReadPath(f.newPath)))
  {
    hide Quoted, ParseHunkHeader, Label, TabAfter, Advance, Shown;
    var l := SideLines(f)[1];
    if f.kind.Deleted? {
      assert l[..6] == "+++ /d" && l[..13] == "+++ /dev/null" && StripCr(l) == l;
      PrefixesByFirst(l);
    } else {
      SideLineText("+++ ", 'b', f.newPath);
      hide SideLine;
      if Quoted(f.newPath) {
        QuotedSideStep(st, l);
      } else {
        assert l[..6] == "+++ b/" && l[6..] == Shown(f.newPath) && l[0] == '+';
        PrefixesByFirst(l);
      }
    }
  }

  /** The state once both side lines are read. */
  function Named(st: State, f: FileEdit): State {
    st.(file := SidePath(f), isNew := f.kind.New?, isDeleted := f.kind.Deleted?)
  }

  lemma SidesRun(st: State, f: FileEdit)
    requires st.file.None? && !st.isNew && !st.isDeleted
    ensures var r := Run(st, Stripped(SideLines(f)));
            r == Err(TOO_LARGE) || (r.Ok? && r.value == Named(st, f).(line := r.value.line))
  {
    hide Step, StripCr, Quoted, SideLine, Shown;
    var lines := Stripped(SideLines(f));
    assert SideLines(f)[1..] == [SideLines(f)[1]] && SideLines(f)[1..][1..] == [];
    assert Stripped(SideLines(f)[1..]) == [StripCr(SideLines(f)[1])];
    assert lines == [StripCr(SideLines(f)[0]), StripCr(SideLines(f)[1])];
    assert lines[1..] == [StripCr(SideLines(f)[1])];
    assert lines[1..][1..] == [];
    OldSideStep(st, f);
    var first := Step(st, lines[0]);
    if first.Ok? {
      NewSideStep(first.value, f);
      var second := Step(first.value, lines[1]);
      assert Run(first.value, lines[1..]) == second by {
        if second.Ok? {
          assert Run(second.value, []) == second;
        }
      }
    }
  }

  /** The record that is pending in a state. */
  function PendingRecord(st: State): FileHunk
    requires st.file.Some?
  {
    FileHunk(st.file.value, st.lines, st.isNew, st.isDeleted)
  }

  lemma HeadRun(st: State, f: FileEdit)
    requires Printable(f)
    ensures var r := Run(st, Stripped([GitLine(f)] + f.headers));
            r == Err(TOO_LARGE) || (r.Ok? && r.value == Opened(st).(line := r.value.line))
  {
    hide Step, StripCr, ExtendedHeader, GitLine;
    GitLineStep(st, f);
    var first := GitLine(f);
    assert ([first] + f.headers)[1..] == f.headers;
    assert Stripped([first] + f.headers)[1..] == Stripped(f.headers);
    HeadersRun(Opened(st), f.headers);
  }

  /** The hunks below the side lines leave the file's own record exactly when the edit is clean. */
  lemma HunksLeaveRecord(st: State, f: FileEdit)
    requires Printable(f) && f.hunks != []
    requires st.file == SidePath(f) && st.lines == [] && st.isNew == f.kind.New? && st.isDeleted == f.kind.Deleted?
    ensures var r := Run(st, Stripped(HunkLines(f.hunks)));
            r == Err(TOO_LARGE)
            || (r.Ok? && r.value.hunks == st.hunks
                && (r.value.file.Some? && PendingRecord(r.value) == Record(f) <==> Clean(f)))
  {
    HunksArePrintable(f);
    hide Step, StripCr, Printable, Recorded, Positions, Unmistakable, MarkersLast, PlainPath, SidePath, PathOf, HunksUnmistakable;
    HunksRun(st, f.hunks);
    HunksExact(f.hunks);
    CleanHunks(f);
    SidePathIsPath(f);
    assert [] + RecordedHunks(f.hunks) == RecordedHunks(f.hunks);
  }

  /** The parser reads a printed file into its record exactly when the edit is clean. */
  lemma FileRun(st: State, f: FileEdit)
    requires BetweenFiles(st) && Printable(f)
    ensures var r := Run(st, Stripped(FileLines(f)));
            r == Err(TOO_LARGE)
            || (r.Ok? && r.value.hunks == Flushed(st)
                && (f.hunks == [] ==> r.value.file == None && r.value.lines == [])
                && (f.hunks != [] ==> (r.value.file.Some? && PendingRecord(r.value) == Record(f) <==> Clean(f))))
  {
    hide Step, StripCr, Printable, GitLine, SideLines, HunkLines, Clean, Record, SidePath;
    var head := [GitLine(f)] + f.headers;
    HeadRun(st, f);
    var r := Run(st, Stripped(head));
    if f.hunks == [] {
      assert FileLines(f) == head;
    } else {
      assert FileLines(f) == head + (SideLines(f) + HunkLines(f.hunks));
      StrippedConcat(head, SideLines(f) + HunkLines(f.hunks));
      StrippedConcat(SideLines(f), HunkLines(f.hunks));
      RunConcat(st, Stripped(head), Stripped(SideLines(f)) + Stripped(HunkLines(f.hunks)));
      if r.Ok? {
        SidesRun(r.value, f);
        RunConcat(r.value, Stripped(SideLines(f)), Stripped(HunkLines(f.hunks)));
        var sides := Run(r.value, Stripped(SideLines(f)));
        if sides.Ok? {
          HunksLeaveRecord(sides.value, f);
        }
      }
    }
  }

  lemma HunksArePrintable(f: FileEdit)
    requires Printable(f)
    ensures forall h :: h in f.hunks ==> PrintableHunk(h)
  {
  }

  lemma CleanHunks(f: FileEdit)
    ensures Clean(f) <==>
              && (f.hunks != [] ==> PlainPath(f))
              && HunksUnmistakable(f.hunks) && forall h :: h in f.hunks ==> MarkersLast(h.changes)
  {
  }

  // ----- A diff -----

  /** A printed file adds no record of its own while it is read, and none later if it has no hunks. */
  lemma FileCount(st: State, f: FileEdit)
    requires Printable(f)
    ensures var r := Run(st, Stripped(FileLines(f)));
            r == Err(TOO_LARGE) || (r.Ok? && r.value.hunks == Flushed(st) && (f.hunks == [] ==> r.value.file == None))
  {
    HunksArePrintable(f);
    hide Step, StripCr, Printable, GitLine, SideLines, HunkLines, HunksUnmistakable, PrintableHunk;
    var head := [GitLine(f)] + f.headers;
    HeadRun(st, f);
    var r := Run(st, Stripped(head));
    if f.hunks == [] {
      assert FileLines(f) == head;
    } else {
      assert FileLines(f) == head + (SideLines(f) + HunkLines(f.hunks));
      StrippedConcat(head, SideLines(f) + HunkLines(f.hunks));
      StrippedConcat(SideLines(f), HunkLines(f.hunks));
      RunConcat(st, Stripped(head), Stripped(SideLines(f)) + Stripped(HunkLines(f.hunks)));
      if r.Ok? {
        SidesRun(r.value, f);
        RunConcat(r.value, Stripped(SideLines(f)), Stripped(HunkLines(f.hunks)));
        var sides := Run(r.value, Stripped(SideLines(f)));
        if sides.Ok? {
          HunksRun(sides.value, f.hunks);
        }
      }
    }
  }

  /** What one more file brings: its pending record, if it has one. */
  function Pending(st: State): seq<FileHunk> {
    if st.file.Some? then [PendingRecord(st)] else []
  }

  /** Whatever was read before, a printed diff brings at most one record per changed file. */
  lemma {:induction false} DiffCount(st: State, files: seq<FileEdit>) returns (read: seq<FileHunk>)
    requires forall f :: f in files ==> Printable(f)
    ensures var r := Run(st, Stripped(DiffLines(files)));
            r == Err(TOO_LARGE) || (r.Ok? && Flushed(r.value) == Flushed(st) + read && |read| <= |Records(files)|)
    decreases |files|
  {
    hide Step, StripCr, Printable, FileLines, Record;
    read := [];
    if files != [] {
      var f, rest := files[0], files[1..];
      FileCount(st, f);
      StrippedConcat(FileLines(f), DiffLines(rest));
      RunConcat(st, Stripped(FileLines(f)), Stripped(DiffLines(rest)));
      var r := Run(st, Stripped(FileLines(f)));
      if r.Ok? {
        var later := DiffCount(r.value, rest);
        read := Pending(r.value) + later;
        assert (Flushed(st) + Pending(r.value)) + later == Flushed(st) + read;
      }
    } else {
      assert Flushed(st) + read == Flushed(st);
    }
  }

  lemma {:induction false} DiffRun(st: State, files: seq<FileEdit>) returns (read: seq<FileHunk>)
    requires BetweenFiles(st) && forall f :: f in files ==> Printable(f)
    ensures var r := Run(st, Stripped(DiffLines(files)));
            r == Err(TOO_LARGE)
            || (r.Ok? && Flushed(r.value) == Flushed(st) + read && |read| <= |Records(files)|
                && (read == Records(files) <==> forall f :: f in files ==> Clean(f)))
    decreases |files|
  {
    hide *;
    DiffParts(files);
    read := [];
    if files != [] {
      var f, rest := files[0], files[1..];
      assert f in files && forall x :: x in rest ==> x in files;
      FileRun(st, f);
      StrippedConcat(FileLines(f), DiffLines(rest));
      RunConcat(st, Stripped(FileLines(f)), Stripped(DiffLines(rest)));
      CleanWithoutHunks(f);
      var r := Run(st, Stripped(FileLines(f)));
      if r.Ok? {
        var mine := Pending(r.value);
        PendingParts(r.value);
        var later;
        if f.hunks != [] && r.value.file == None {
          later := DiffCount(r.value, rest);
        } else {
          later := DiffRun(r.value, rest);
          SameParts(mine, OwnRecord(f), later, Records(rest));
        }
        read := mine + later;
        assert (Flushed(st) + mine) + later == Flushed(st) + read;
      }
    } else {
      NothingRun(st);
      assert Flushed(st) + read == Flushed(st);
    }
  }

  function OwnRecord(f: FileEdit): seq<FileHunk> {
    if f.hunks == [] then [] else [Record(f)]
  }

  lemma DiffParts(files: seq<FileEdit>)
    ensures files == [] ==> Stripped(DiffLines(files)) == [] && Records(files) == []
    ensures files != [] ==>
              && DiffLines(files) == FileLines(files[0]) + DiffLines(files[1..])
              && Records(files) == OwnRecord(files[0]) + Records(files[1..])
              && |OwnRecord(files[0])| == (if files[0].hunks == [] then 0 else 1)
              && (files[0].hunks != [] ==> OwnRecord(files[0])[0] == Record(files[0]))
    ensures files != [] ==>
              ((forall x :: x in files ==> Clean(x)) <==> (Clean(files[0]) && forall x :: x in files[1..] ==> Clean(x)))
  {
    hide FileLines, Clean, Record;
  }

  lemma PendingParts(st: State)
    ensures Flushed(st) == st.hunks + Pending(st)
    ensures Pending(st) == if st.file.Some? then [PendingRecord(st)] else []
    ensures st.file.Some? || st.lines == [] ==> BetweenFiles(st)
  {
  }

  lemma NothingRun(st: State)
    ensures Run(st, []) == Ok(st)
  {
  }

  lemma CleanWithoutHunks(f: FileEdit)
    ensures f.hunks == [] ==> Clean(f)
  {
  }

  lemma {:induction false} DiffLinesAreLines(files: seq<FileEdit>)
    requires forall f :: f in files ==> Printable(f)
    ensures forall l :: l in DiffLines(files) ==> OneLine(l)
    decreases |files|
  {
    if files != [] {
      FileLinesAreLines(files[0]);
      DiffLinesAreLines(files[1..]);
    }
  }

  lemma FileLinesAreLines(f: FileEdit)
    requires Printable(f)
    ensures forall l :: l in FileLines(f) ==> OneLine(l)
  {
    HunkLinesAreLines(f.hunks);
    LabelHasNoBreak('a', f.oldPath);
    LabelHasNoBreak('b', f.newPath);
    hide Label, TabAfter, HunkLines;
    assert OneLine(GitLine(f));
    assert forall l :: l in SideLines(f) ==> OneLine(l);
  }

  lemma {:induction false} HunkLinesAreLines(hunks: seq<Hunk>)
    requires forall h :: h in hunks ==> PrintableHunk(h)
    ensures forall l :: l in HunkLines(hunks) ==> OneLine(l)
    decreases |hunks|
  {
    if hunks != [] {
      var h := hunks[0];
      assert h in hunks && PrintableHunk(h);
      HunkHeaderIsLine(h);
      ChangeLinesAreLines(h.changes);
      HunkLinesAreLines(hunks[1..]);
    }
  }

  lemma HunkHeaderIsLine(h: Hunk)
    requires PrintableHunk(h)
    ensures OneLine(HunkHeader(h))
  {
    hide Range;
    RangeChars(h.oldStart, OldCount(h.changes));
    RangeChars(h.newStart, NewCount(h.changes));
  }

  lemma {:induction false} ChangeLinesAreLines(changes: seq<Change>)
    requires forall c :: c in changes && !c.NoNewline? ==> OneLine(c.text)
    ensures forall l :: l in ChangeLines(changes) ==> OneLine(l)
    decreases |changes|
  {
    if changes != [] {
      assert OneLine(ChangeLine(changes[0]));
      ChangeLinesAreLines(changes[1..]);
    }
  }

  /** Parsing a printed diff gives back one record per file with hunks, with its path, its flags and the
      position of every changed line, exactly when every edit is clean. */
  lemma RoundTrip(files: seq<FileEdit>)
    requires forall f :: f in files ==> Printable(f)
    ensures var r := Parse(Text(DiffLines(files)));
            r == Err(TOO_LARGE) || (r == Ok(Records(files)) <==> forall f :: f in files ==> Clean(f))
  {
    hide Step, StripCr, Printable, Clean, FileLines, Record;
    DiffLinesAreLines(files);
    LinesOfText(DiffLines(files));
    var read := DiffRun(START, files);
    assert Flushed(START) + read == read;
  }

  /** One record for every file. */
  function EveryRecord(files: seq<FileEdit>): seq<FileHunk> {
    if files == [] then [] else [Record(files[0])] + EveryRecord(files[1..])
  }

  lemma {:induction false} EveryRecordIsRecords(files: seq<FileEdit>)
    ensures |Records(files)| <= |EveryRecord(files)| == |files|
    ensures |Records(files)| == |files| <==> forall f :: f in files ==> f.hunks != []
    ensures |Records(files)| == |files| ==> Records(files) == EveryRecord(files)
  {
    hide Record;
    if files != [] {
      EveryRecordIsRecords(files[1..]);
      assert files == [files[0]] + files[1..];
    }
  }

  /** There is a record of every file of the diff exactly when, in addition, every file has hunks. */
  lemma EveryFileIsRecorded(files: seq<FileEdit>)
    requires forall f :: f in files ==> Printable(f)
    ensures var r := Parse(Text(DiffLines(files)));
            r == Err(TOO_LARGE) || (r == Ok(EveryRecord(files)) <==> forall f :: f in files ==> Clean(f) && f.hunks != [])
  {
    hide Step, StripCr, Printable, Clean, FileLines, Record, Records, EveryRecord;
    DiffLinesAreLines(files);
    LinesOfText(DiffLines(files));
    var read := DiffRun(START, files);
    assert Flushed(START) + read == read;
    EveryRecordIsRecords(files);
  }

  /** A file printed without its `diff --git` line, as other tools print it, is read in the same way. */
  lemma BareFileIsRead(f: FileEdit)
    requires Printable(f) && f.hunks != []
    ensures var r := Parse(Text(SideLines(f) + HunkLines(f.hunks)));
            r == Err(TOO_LARGE) || (r == Ok([Record(f)]) <==> Clean(f))
  {
    var lines := SideLines(f) + HunkLines(f.hunks);
    BareLines(f);
    hide *;
    LinesOfText(lines);
    StrippedConcat(SideLines(f), HunkLines(f.hunks));
    RunConcat(START, Stripped(SideLines(f)), Stripped(HunkLines(f.hunks)));
    ParseIs(lines);
    SidesRun(START, f);
    var sides := Run(START, Stripped(SideLines(f)));
    if sides.Ok? {
      NamedIs(START, f);
      HunksLeaveRecord(sides.value, f);
      assert [Record(f)][0] == Record(f) && [] + [Record(f)] == [Record(f)];
    }
  }

  lemma BareLines(f: FileEdit)
    requires Printable(f) && f.hunks != []
    ensures forall l :: l in SideLines(f) + HunkLines(f.hunks) ==> OneLine(l)
    ensures START.file.None? && START.lines == [] && START.hunks == [] && !START.isNew && !START.isDeleted
  {
    FileLinesAreLines(f);
    hide OneLine, SideLines, HunkLines, GitLine;
    assert forall l :: l in SideLines(f) + HunkLines(f.hunks) ==> l in FileLines(f);
  }

  lemma NamedIs(st: State, f: FileEdit)
    requires st.lines == []
    ensures var named := Named(st, f);
            named.file == SidePath(f) && named.lines == [] && named.hunks == st.hunks
            && named.isNew == f.kind.New? && named.isDeleted == f.kind.Deleted?
  {
  }

  lemma ParseIs(lines: seq<string>)
    requires Lines(Text(lines)) == Stripped(lines)
    ensures var r := Run(START, Stripped(lines));
            Parse(Text(lines)) == (match r
                                   case Err(e) => Err(e)
                                   case Ok(st) => Ok(st.hunks + if st.file.Some? then [PendingRecord(st)] else []))
  {
    hide Run, Lines, Stripped;
    var r := Run(START, Stripped(lines));
    assert r.Ok? ==> r.value.hunks + [] == r.value.hunks;
  }

  // ----- The refusal -----

  lemma LongerPrefix(l: string, long: string, short: string)
    requires short <= long
    ensures HasPrefix(l, long) ==> HasPrefix(l, short)
  {
  }

  /** An added or a context line is refused when the counter has reached the largest signed 64-bit number, and
      moves it by one otherwise; a removed line never moves it. */
  lemma CounterIsGuarded(st: State, l: string)
    requires l != "" && (l[0] in {'+', '-', ' '}) && !HasPrefix(l, "++") && !HasPrefix(l, "--")
    ensures var next := Step(st, l);
            if l[0] != '-' && st.line >= 9_223_372_036_854_775_807 then next == Err(TOO_LARGE)
            else next == Ok(st.(line := if l[0] == '-' then st.line else st.line + 1,
                                lines := if l[0] == ' ' then st.lines else st.lines + [st.line]))
  {
    PrefixesByFirst(l);
    LongerPrefix(l, "+++ b/", "++");
    LongerPrefix(l, "+++ /dev/null", "++");
    LongerPrefix(l, "+++", "++");
    LongerPrefix(l, "--- a/", "--");
    LongerPrefix(l, "--- /dev/null", "--");
    LongerPrefix(l, "---", "--");
    assert l[..1] == [l[0]];
    hide HasPrefix;
    hide ParseHunkHeader;
  }

  predicate StartsUpTo(ls: seq<string>, limit: nat) {
    forall l :: l in ls && HasPrefix(l, "@@ ") && ParseHunkHeader(l).Some? ==> ParseHunkHeader(l).value <= limit
  }

  lemma {:induction false} RunSmall(st: State, ls: seq<string>, limit: nat, read: nat)
    requires StartsUpTo(ls, limit) && st.line <= limit + read && limit + read + |ls| <= DIFF_LINE_MAX
    ensures Run(st, ls).Ok?
    decreases |ls|
  {
    hide HasPrefix, ParseHunkHeader;
    if ls != [] {
      assert ls[0] in ls;
      RunSmall(Step(st, ls[0]).value, ls[1..], limit, read + 1);
    }
  }

  /** The overflow guard refuses no text whose hunk starts and line count together stay below it. */
  lemma SmallDiffsAreRead(text: string, limit: nat)
    requires StartsUpTo(Lines(text), limit) && limit + |Lines(text)| <= 9_223_372_036_854_775_807
    ensures Parse(text).Ok?
  {
    RunSmall(START, Lines(text), limit, 0);
  }

  // ----- What the positions mean -----

  /** The lines of the new file that a hunk shows. */
  function NewSide(changes: seq<Change>): seq<string> {
    if changes == [] then []
    else (if changes[0].Context? || changes[0].Added? then [changes[0].text] else []) + NewSide(changes[1..])
  }

  lemma {:induction false} PositionOf(changes: seq<Change>, at: nat, k: nat)
    requires k < |changes| && IsChanged(changes[k])
    ensures Changed(changes[..k]) < |Positions(changes, at)|
    ensures Positions(changes, at)[Changed(changes[..k])] == at + |NewSide(changes[..k])|
    ensures changes[k].Added? ==>
              |NewSide(changes[..k])| < |NewSide(changes)|
              && NewSide(changes)[|NewSide(changes[..k])|] == changes[k].text
    decreases |changes|
  {
    if k == 0 {
      assert changes[..0] == [];
    } else {
      var next := if changes[0].Context? || changes[0].Added? then at + 1 else at;
      assert changes[..k][0] == changes[0];
      assert changes[..k][1..] == changes[1..][..k - 1];
      PositionOf(changes[1..], next, k - 1);
    }
  }

  /** In a hunk that shows the new file from line `newStart` on, the position recorded for an added
      line is that line's 1-based number. */
  lemma AddedLineNumber(newFile: seq<string>, h: Hunk, k: nat)
    requires 0 < h.newStart && h.newStart - 1 + |NewSide(h.changes)| <= |newFile|
    requires newFile[h.newStart - 1..][..|NewSide(h.changes)|] == NewSide(h.changes)
    requires k < |h.changes| && h.changes[k].Added?
    ensures Changed(h.changes[..k]) < |Positions(h.changes, h.newStart)|
    ensures var position := Positions(h.changes, h.newStart)[Changed(h.changes[..k])];
            0 < position <= |newFile| && newFile[position - 1] == h.changes[k].text
  {
    PositionOf(h.changes, h.newStart, k);
    var before := |NewSide(h.changes[..k])|;
    assert newFile[h.newStart - 1..][..|NewSide(h.changes)|][before] == newFile[h.newStart - 1 + before];
  }

  /** An everyday edit: changing the last line of a file that has no final line break. */
  const LAST_LINE_EDIT := FileEdit("a.rs", "a.rs", Modified, [],
                            [Hunk(7, 7, "", [Removed("old"), NoNewline, Added("new"), NoNewline])])

  lemma ChangeAfterMarker(a: Change, b: Change, rest: seq<Change>)
    requires IsChanged(b)
    ensures !MarkersLast([a, NoNewline, b] + rest)
  {
    var changes := [a, NoNewline, b] + rest;
    assert changes[1..][0] == NoNewline && changes[1..][1..][0] == b;
    assert b in changes[1..][1..];
    assert !MarkersLast(changes[1..]);
  }

  /** The round trip fails on it: the marker after the removed line shifts the added line by one. */
  lemma LastLineWithoutBreak()
    ensures Printable(LAST_LINE_EDIT)
    ensures Parse(Text(DiffLines([LAST_LINE_EDIT]))) != Ok(Records([LAST_LINE_EDIT]))
  {
    hide Parse, DiffLines, Records, Text, MarkersLast, Unmistakable;
    var h := LAST_LINE_EDIT.hunks[0];
    assert h.changes == [Removed("old"), NoNewline, Added("new")] + [NoNewline];
    ChangeAfterMarker(Removed("old"), Added("new"), [NoNewline]);
    assert h in LAST_LINE_EDIT.hunks;
    assert LAST_LINE_EDIT in [LAST_LINE_EDIT];
    RoundTrip([LAST_LINE_EDIT]);
  }
}
