/** The round trip of printed diffs without the overflow refusal, and edits on which it fails. */
module DiffExamples {
  import opened Prelude
  import opened GitLabels
  import opened UnifiedDiff
  import opened DiffRoundTrip

  // ----- Small diffs -----

  predicate StartsWithin(files: seq<FileEdit>, limit: nat) {
    forall f, h :: f in files && h in f.hunks ==> h.newStart <= limit
  }

  lemma StartsConcat(a: seq<string>, b: seq<string>, limit: nat)
    requires StartsUpTo(Stripped(a), limit) && StartsUpTo(Stripped(b), limit)
    ensures StartsUpTo(Stripped(a + b), limit)
  {
    StrippedConcat(a, b);
    hide HasPrefix, ParseHunkHeader;
    assert forall l :: l in Stripped(a) + Stripped(b) ==> l in Stripped(a) || l in Stripped(b);
  }

  lemma NoHeader(l: string)
    requires !At(l, 0, '@')
    ensures !HasPrefix(StripCr(l), "@@ ")
  {
    PrefixesByFirst(StripCr(l));
  }

  lemma StrippedOne(l: string)
    ensures Stripped([l]) == [StripCr(l)]
  {
    assert [l][1..] == [];
  }

  lemma {:induction false} NoHeaders(ls: seq<string>, limit: nat)
    requires forall l :: l in ls ==> !At(l, 0, '@')
    ensures StartsUpTo(Stripped(ls), limit)
  {
    hide HasPrefix, ParseHunkHeader, StripCr;
    if ls != [] {
      assert ls[0] in ls;
      NoHeader(ls[0]);
      NoHeaders(ls[1..], limit);
    }
  }

  lemma {:induction false} ChangesStart(changes: seq<Change>)
    ensures forall l :: l in ChangeLines(changes) ==> !At(l, 0, '@')
  {
    if changes != [] {
      ChangesStart(changes[1..]);
      assert ChangeLine(changes[0])[0] != '@';
    }
  }

  lemma HeaderStarts(h: Hunk, limit: nat)
    requires PrintableHunk(h) && h.newStart <= limit
    ensures StartsUpTo(Stripped([HunkHeader(h)]), limit)
  {
    hide HasPrefix, ParseHunkHeader, StripCr, HunkHeader;
    var front, tail := HunkHeaderText(h);
    HeaderShape(front, h.newStart, tail);
    StrippedOne(HunkHeader(h));
  }

  lemma {:induction false} HunksStart(hunks: seq<Hunk>, limit: nat)
    requires forall h :: h in hunks ==> PrintableHunk(h) && h.newStart <= limit
    ensures StartsUpTo(Stripped(HunkLines(hunks)), limit)
  {
    hide StartsUpTo, Stripped, ChangeLines, PrintableHunk, HunkHeader;
    if hunks == [] {
      NoHeaders([], limit);
    } else {
      var h := hunks[0];
      assert h in hunks;
      HeaderStarts(h, limit);
      ChangesStart(h.changes);
      NoHeaders(ChangeLines(h.changes), limit);
      HunksStart(hunks[1..], limit);
      StartsConcat([HunkHeader(h)], ChangeLines(h.changes), limit);
      StartsConcat([HunkHeader(h)] + ChangeLines(h.changes), HunkLines(hunks[1..]), limit);
    }
  }

  lemma FileStarts(f: FileEdit, limit: nat)
    requires Printable(f) && forall h :: h in f.hunks ==> h.newStart <= limit
    ensures StartsUpTo(Stripped(FileLines(f)), limit)
  {
    HunksArePrintable(f);
    var sides := if f.hunks == [] then [] else SideLines(f) + HunkLines(f.hunks);
    assert forall l :: l in f.headers ==> ExtendedHeader(l) && !At(l, 0, '@');
    assert GitLine(f)[0] == 'd';
    assert SideLines(f)[0][0] == '-' && SideLines(f)[1][0] == '+';
    hide Stripped, StartsUpTo, HasPrefix, ParseHunkHeader, GitLine, SideLines, HunkLines, PrintableHunk;
    NoHeaders([GitLine(f)] + f.headers, limit);
    if f.hunks != [] {
      NoHeaders(SideLines(f), limit);
      HunksStart(f.hunks, limit);
      StartsConcat(SideLines(f), HunkLines(f.hunks), limit);
    } else {
      NoHeaders([], limit);
    }
    StartsConcat([GitLine(f)] + f.headers, sides, limit);
  }

  lemma {:induction false} DiffStarts(files: seq<FileEdit>, limit: nat)
    requires (forall f :: f in files ==> Printable(f)) && StartsWithin(files, limit)
    ensures StartsUpTo(Stripped(DiffLines(files)), limit)
    decreases |files|
  {
    hide StartsUpTo, FileLines, Stripped, Printable;
    if files == [] {
      NoHeaders([], limit);
    } else {
      assert files[0] in files;
      FileStarts(files[0], limit);
      DiffStarts(files[1..], limit);
      StartsConcat(FileLines(files[0]), DiffLines(files[1..]), limit);
    }
  }

  lemma {:induction false} StrippedLength(ls: seq<string>)
    ensures |Stripped(ls)| == |ls|
  {
    if ls != [] {
      StrippedLength(ls[1..]);
    }
  }

  /** A printed diff whose hunk starts and line count together stay below half of the 64-bit range is
      read, and read back exactly when every edit is clean. */
  lemma SmallRoundTrip(files: seq<FileEdit>, limit: nat)
    requires (forall f :: f in files ==> Printable(f)) && StartsWithin(files, limit)
    requires limit + |DiffLines(files)| <= 9_223_372_036_854_775_807
    ensures Parse(Text(DiffLines(files))) == Ok(Records(files)) <==> forall f :: f in files ==> Clean(f)
  {
    hide Parse, Printable, Clean, DiffLines, Text, Records, StartsUpTo, Stripped, StartsWithin;
    DiffLinesAreLines(files);
    LinesOfText(DiffLines(files));
    DiffStarts(files, limit);
    StrippedLength(DiffLines(files));
    SmallDiffsAreRead(Text(DiffLines(files)), limit);
    RoundTrip(files);
  }

  // ----- Edits without a record -----

  lemma OneFile(f: FileEdit)
    requires f.hunks == []
    ensures DiffLines([f]) == [GitLine(f)] + f.headers && Records([f]) == []
  {
    hide GitLine;
    assert [f][1..] == [];
  }

  /** A file printed with headers alone leaves no record: an empty new file, a pure rename, a change of mode. */
  lemma HeadersAloneLeaveNothing(f: FileEdit)
    requires Printable(f) && f.hunks == [] && |f.headers| < DIFF_LINE_MAX
    ensures Parse(Text(DiffLines([f]))) == Ok([])
  {
    assert StartsWithin([f], 0) && Clean(f);
    hide Parse, Text, Records, DiffLines, Printable, Clean;
    OneFile(f);
    SmallRoundTrip([f], 0);
  }

  lemma RenameLeavesNothing()
    ensures Parse(Text(DiffLines([FileEdit("a.rs", "b.rs", Modified,
                                           ["similarity index 100%", "rename from a.rs", "rename to b.rs"], [])]))) == Ok([])
  {
    var headers := ["similarity index 100%", "rename from a.rs", "rename to b.rs"];
    assert forall l :: l in headers ==> l == headers[0] || l == headers[1] || l == headers[2];
    assert headers[0][0] == 's' && headers[1][0] == 'r' && headers[2][0] == 'r' && "diff --git"[0] == 'd';
    hide Parse, Text, DiffLines;
    HeadersAloneLeaveNothing(FileEdit("a.rs", "b.rs", Modified, headers, []));
  }

  // ----- Edits on which it fails -----

  lemma UncleanEdit(f: FileEdit)
    requires Printable(f) && !Clean(f)
    ensures Parse(Text(DiffLines([f]))) != Ok(Records([f]))
  {
    hide Parse, DiffLines, Records, Text, Clean, Printable;
    assert f in [f];
    RoundTrip([f]);
  }

  function OneChange(path: string, c: Change): FileEdit {
    FileEdit(path, path, Modified, [], [Hunk(1, 1, "", [c])])
  }

  /** A removed line that begins with `--`, such as an SQL comment, is taken for a file header; so is an
      added line that begins with `++`. */
  lemma HeaderLookAlikes()
    ensures Printable(OneChange("a.sql", Removed("-- note")))
    ensures Parse(Text(DiffLines([OneChange("a.sql", Removed("-- note"))]))) != Ok(Records([OneChange("a.sql", Removed("-- note"))]))
    ensures Parse(Text(DiffLines([OneChange("a.c", Added("++i;"))]))) != Ok(Records([OneChange("a.c", Added("++i;"))]))
  {
    hide Parse, Text, DiffLines, Records;
    var f, g := OneChange("a.sql", Removed("-- note")), OneChange("a.c", Added("++i;"));
    assert "-- note"[..2] == "--" && "++i;"[..2] == "++";
    assert !Unmistakable(f.hunks[0].changes[0]) && f.hunks[0] in f.hunks && f.hunks[0].changes[0] in f.hunks[0].changes;
    assert !Unmistakable(g.hunks[0].changes[0]) && g.hunks[0] in g.hunks && g.hunks[0].changes[0] in g.hunks[0].changes;
    UncleanEdit(f);
    UncleanEdit(g);
  }

  /** A path with a space comes back with the tab that git writes behind it, and a quoted path does not
      come back. */
  lemma UnusualPaths()
    ensures Printable(OneChange("my file.rs", Added("x"))) && Printable(OneChange("caf\U{00E9}.rs", Added("x")))
    ensures Parse(Text(DiffLines([OneChange("my file.rs", Added("x"))]))) != Ok(Records([OneChange("my file.rs", Added("x"))]))
    ensures Parse(Text(DiffLines([OneChange("caf\U{00E9}.rs", Added("x"))]))) != Ok(Records([OneChange("caf\U{00E9}.rs", Added("x"))]))
  {
    hide Parse, Text, DiffLines, Records;
    var f, g := OneChange("my file.rs", Added("x")), OneChange("caf\U{00E9}.rs", Added("x"));
    assert f.newPath[2] == ' ' && f.newPath[2] in f.newPath && |f.newPath| != |f.oldPath + "\t"|;
    assert Unusual(g.newPath[3]) && g.newPath[3] in g.newPath;
    assert Quoted(g.newPath);
    UncleanEdit(f);
    UncleanEdit(g);
  }
}
