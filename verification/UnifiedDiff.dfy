/** The diff parser of src/git_diff.rs: a state machine over the lines of a unified diff. */
module UnifiedDiff {
  import opened Prelude
  import opened Decimal

  const DIFF_LINE_MAX: nat := U64_MAX / 2
  const TOO_LARGE := "diff_too_large: line counter would overflow"

  datatype FileHunk = FileHunk(filePath: string, changedLines: seq<nat>, isNew: bool, isDeleted: bool)

  datatype State = State(hunks: seq<FileHunk>, file: Option<string>, lines: seq<nat>, line: nat,
                         isNew: bool, isDeleted: bool)

  const START := State([], None, [], 0, false, false)

  /** The records once the pending file is flushed. */
  function Flushed(st: State): seq<FileHunk> {
    match st.file
    case None => st.hunks
    case Some(path) => st.hunks + [FileHunk(path, st.lines, st.isNew, st.isDeleted)]
  }

  // ----- Lines of a text -----

  function StripCr(l: string): string {
    if l != "" && l[|l| - 1] == '\r' then l[..|l| - 1] else l
  }

  /** `str::lines`: a line ends with LF or CR LF, and the last one need not end. */
  function Lines(text: string): seq<string>
    decreases |text|
  {
    if text == "" then []
    else
      match Find(text, "\n")
      case None => [text]
      case Some(k) => [StripCr(text[..k])] + Lines(text[k + 1..])
  }

  // ----- Hunk headers -----

  function IndexOf(s: string, chars: set<char>): (r: Option<nat>)
    ensures r.Some? ==> r.value < |s| && s[r.value] in chars
  {
    if s == "" then None
    else if s[0] in chars then Some(0)
    else
      match IndexOf(s[1..], chars)
      case None => None
      case Some(k) => Some(k + 1)
  }

  /** The start of the new range in `@@ -old[,count] +new[,count] @@`. */
  function ParseHunkHeader(l: string): Option<nat> {
    match IndexOf(l, {'+'})
    case None => None
    case Some(plus) =>
      match IndexOf(l[plus + 1..], {',', ' '})
      case None => None
      case Some(end) => ParseU64(l[plus + 1..][..end])
  }

  // ----- The state machine -----

  function Advance(st: State): Result<State, string> {
    if st.line >= DIFF_LINE_MAX then Err(TOO_LARGE) else Ok(st.(line := st.line + 1))
  }

  function Step(st: State, l: string): Result<State, string> {
    if HasPrefix(l, "diff --git") then
      var lines := if st.file.Some? then [] else st.lines;
      Ok(State(Flushed(st), None, lines, st.line, false, false))
    else if HasPrefix(l, "--- a/") then Ok(if st.file.None? then st.(file := Some(l[6..])) else st)
    else if HasPrefix(l, "--- /dev/null") then Ok(st.(isNew := true))
    else if HasPrefix(l, "+++ b/") then Ok(st.(file := Some(l[6..])))
    else if HasPrefix(l, "+++ /dev/null") then Ok(st.(isDeleted := true))
    else if HasPrefix(l, "@@ ") then
      match ParseHunkHeader(l)
      case None => Ok(st)
      case Some(start) => Ok(st.(line := start))
    else if HasPrefix(l, "+") && !HasPrefix(l, "+++") then Advance(st.(lines := st.lines + [st.line]))
    else if HasPrefix(l, "-") && !HasPrefix(l, "---") then Ok(st.(lines := st.lines + [st.line]))
    else Advance(st)
  }

  function Run(st: State, ls: seq<string>): Result<State, string>
    decreases |ls|
  {
    if ls == [] then Ok(st)
    else
      match Step(st, ls[0])
      case Err(e) => Err(e)
      case Ok(next) => Run(next, ls[1..])
  }

  /** What `parse_unified_diff` returns for a text. */
  function Parse(text: string): Result<seq<FileHunk>, string> {
    match Run(START, Lines(text))
    case Err(e) => Err(e)
    case Ok(st) => Ok(Flushed(st))
  }

  lemma {:induction false} RunConcat(st: State, a: seq<string>, b: seq<string>)
    ensures Run(st, a + b) == (match Run(st, a) case Err(e) => Err(e) case Ok(mid) => Run(mid, b))
    decreases |a|
  {
    hide Step;
    if a == [] {
      assert a + b == b;
    } else {
      assert (a + b)[1..] == a[1..] + b;
      if Step(st, a[0]).Ok? {
        RunConcat(Step(st, a[0]).value, a[1..], b);
      }
    }
  }

  /** The parser in its own form: one loop over the lines, updating the state in place. */
  method ParseUnifiedDiff(diffText: string) returns (r: Result<seq<FileHunk>, string>)
    ensures r == Parse(diffText)
  {
    hide ParseHunkHeader, Run, HasPrefix, Lines;
    var hunks: seq<FileHunk>, currentFile: Option<string>, currentLines: seq<nat> := [], None, [];
    var currentLine: nat, isNew, isDeleted := 0, false, false;
    var lines := Lines(diffText);
    assert lines[0..] == lines;
    for k := 0 to |lines|
      invariant Run(State(hunks, currentFile, currentLines, currentLine, isNew, isDeleted), lines[k..])
                == Run(START, lines)
    {
      var line := lines[k];
      ghost var st := State(hunks, currentFile, currentLines, currentLine, isNew, isDeleted);
      RunOne(st, lines, k);
      if HasPrefix(line, "diff --git") {
        if currentFile.Some? {
          hunks := hunks + [FileHunk(currentFile.value, currentLines, isNew, isDeleted)];
          currentFile, currentLines := None, [];
        }
        isNew, isDeleted := false, false;
      } else if HasPrefix(line, "--- a/") {
        PrefixLength(line, "--- a/");
        if currentFile.None? {
          currentFile := Some(line[6..]);
        }
      } else if HasPrefix(line, "--- /dev/null") {
        isNew := true;
      } else if HasPrefix(line, "+++ b/") {
        PrefixLength(line, "+++ b/");
        currentFile := Some(line[6..]);
      } else if HasPrefix(line, "+++ /dev/null") {
        isDeleted := true;
      } else if HasPrefix(line, "@@ ") {
        var newRange := ParseHunkHeader(line);
        if newRange.Some? {
          currentLine := newRange.value;
        }
      } else if HasPrefix(line, "+") && !HasPrefix(line, "+++") {
        currentLines := currentLines + [currentLine];
        if currentLine >= DIFF_LINE_MAX {
          return Err(TOO_LARGE);
        }
        currentLine := currentLine + 1;
      } else if HasPrefix(line, "-") && !HasPrefix(line, "---") {
        currentLines := currentLines + [currentLine];
      } else {
        if currentLine >= DIFF_LINE_MAX {
          return Err(TOO_LARGE);
        }
        currentLine := currentLine + 1;
      }
      assert Step(st, line) == Ok(State(hunks, currentFile, currentLines, currentLine, isNew, isDeleted));
      hide Step;
    }
    assert lines[|lines|..] == [];
    RunNothing(State(hunks, currentFile, currentLines, currentLine, isNew, isDeleted));
    if currentFile.Some? {
      hunks := hunks + [FileHunk(currentFile.value, currentLines, isNew, isDeleted)];
    }
    r := Ok(hunks);
  }

  lemma RunNothing(st: State)
    ensures Run(st, []) == Ok(st)
  {
  }

  lemma PrefixLength(l: string, p: string)
    requires HasPrefix(l, p)
    ensures |p| <= |l|
  {
  }

  lemma RunOne(st: State, ls: seq<string>, k: nat)
    requires k < |ls|
    ensures Run(st, ls[k..]) ==
            (match Step(st, ls[k]) case Err(e) => Err(e) case Ok(next) => Run(next, ls[k + 1..]))
  {
    hide Step;
    assert ls[k..][1..] == ls[k + 1..];
  }
}
