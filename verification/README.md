# Verified models of the codebase-graph server

This project models, in Dafny 4.11, the self-contained logic around the graph store of the
server: its read cache and the release hook that protects writers, cursor paging, run ids and
timestamps, the temporal-coupling miner, the unified-diff reader, the sidecar pairing of an index,
the ambiguity policy for calls, the language-server exchange, the finding index, and two repository
scripts (the checker that certifies moved functions, and the reader of the README's layout tree).

Each module takes the form of its source. Code that loops or updates fields is a method or a class,
proved equal to a specification function; what the source promises is then proved of that function,
for every input, every run or every interleaving. Where the code does not keep a promise, the code is
modelled as it is, a lemma names an input on which it fails, and the exact condition under which it
holds is proved in both directions.

| module | source |
|---|---|
| `RustLexemes`, `LexemeShapes`, `FnBodies`, `MoveChecker`, `FnTokens`, `NormalForms`, `FnEdits`, `FnExamples`, `FnShapes`, `FnItems`, `WholeFunctions`, `WholeEdits` | `scripts/check_moved_fn_bodies.py` |
| `Decimal`, `GitLabels`, `UnifiedDiff`, `DiffRoundTrip`, `DiffExamples` | `src/git_diff.rs` |
| `GraphCache`, `HandleProtocol`, `HandleRuns`, `SharedReads` | `src/graph_cache.rs`, `src/graph_store/handles.rs` |
| `Calendar`, `TextOrder`, `Xorshift`, `RunIds` | `src/handler_util.rs`, `src/atomic_file.rs` |
| `Cochange`, `CochangeCounts`, `CochangeRanges`, `CochangeEdges` | `src/cochange.rs` |
| `Paging` | `src/response_budget.rs`, `src/query_handlers.rs` |
| `Sidecars` | `src/graph_freshness.rs`, `src/indexing_handlers.rs`, `src/analyze_handlers.rs` |
| `AmbiguityPolicy`, `TierPrecision`, `CallEvidence` | `src/ambiguity_policy.rs`, `src/call_evidence.rs` |
| `LspSession`, `LspClient` | `src/lsp_client.rs`, `src/lsp_client/frames.rs` |
| `LayoutTree`, `LayoutBlock` | `scripts/check_doc_claims.py` |
| `FindingIndex` | `src/finding_index.rs` |
| `Prelude`, `MultisetSums` | vocabulary and multiset sums shared by the others |

`dafny verify dfyconfig.toml` checks everything.

## Where the code and its documentation differ

- The move checker promises to report every function with a different text, attributes and qualifiers included
  (`scripts/check_moved_fn_bodies.py:3-17`). It reads a function with its whole text if and only if
  nothing before `fn` makes it forget what it has read, only blanks stand between `fn` and the name, the name is an
  ASCII word, and the signature has no brace outside literals and comments
  (`WholeFunctions.FunctionIsFound`). Lines 150-166 take any brace for the body: of `fn f(x:[u8;{4}]){g()}` the
  body is never read (`WholeEdits.BraceInSignature`, `WholeEdits.BodyBehindBraceIsUnseen`). Line 219 forgets the prefix
  at an ABI that is no plain string, so `pub` can be removed from `pub extern r"C" fn f(){}` (`WholeEdits.RawAbiHidesPub`,
  `WholeEdits.PrefixBeforeAbiIsUnseen`); the same happens at `# [attribute]` and at `pub /* */ (crate)`.
- Collapsing blanks drops the line break that ends a `//` comment (lines 170-192 there), so code can move into the
  comment unnoticed (`FnExamples.ExpressionBecomesComment`). The normal form gives the tokens back if and only if
  no line comment is followed by a token and no lone `'` by blanks and a `'` (`NormalForms.NormalFormIsFaithful`).
  An edit of a function that is read as a whole and keeps its line comments is reported if and only if it changes
  the name or a token (`WholeEdits.OrdinaryEditIsReported`).
- Eviction looks only at the opening order (`src/graph_cache.rs:243-256`), so a handle that a request
  holds can be evicted; the release hook then finds nothing to refuse, and the handle's close undoes the
  next write, against `src/graph_cache.rs:284-295`. It happens exactly when a read opens a graph while eight are
  cached and the one opened first is held; `HandleRuns.NineGraphsLose` is such a run. The same happens to a graph
  that a read creates under a spelling other than its own, because its key is then the literal spelling
  (line 197). `HandleProtocol.CareIsExact` proves that these two are the only ways.
  Today's requests come to neither. They run one after the other (`src/graph_cache.rs:17-24`), each reads one graph,
  and the read tools check that the path exists first (`src/query_handlers.rs:181`,
  `src/doc_claims_handlers.rs:134`): `HandleRuns.RequestsLoseNothing` proves that such requests lose nothing. The
  cache itself does not ask for this; the misfiled graph needs one that vanishes between the check and the open.
- `git`'s `\ No newline at end of file` marker is counted as a line (`src/git_diff.rs:148-153`), and
  changed lines that begin like `---` or `+++` are read as file headers or context. The path of a file
  with a space keeps the tab that `git` writes behind it, and a quoted path is not recognised
  (lines 115-129). `DiffRoundTrip.RoundTrip` gives the exact condition, `DiffExamples` the inputs. A file that `git`
  prints with headers alone, an empty new file, a pure rename or a change of mode, has no record and is not counted
  in `files_changed` (line 355); `DiffRoundTrip.EveryFileIsRecorded` says when every file has one.
- A full index writes the meta even when its manifest write failed (`src/indexing_handlers.rs:171-176`),
  so a verdict can pair the manifest of one run with the meta of another.
  `Sidecars.VerdictsPairOneRun` gives the exact condition.
- Timestamps sort by time only while years have equally many digits: the first second of year 10000
  sorts before the one before it. `RunIds.SortableTimes` gives the exact limit.
- The ambiguity tiers test plain strings. The import tier takes suffixes of characters where its comment
  speaks of path segments (`src/ambiguity_policy.rs:256-266`), the file tier accepts `src/a.pyi::f` for a
  caller in `src/a.py`, and the package tier `pkg_ab::helper` for one in `pkg_a`. `TierPrecision.ImportTierErrs`,
  `FileTierErrs` and `PackageTierErrs` show wrong answers of the policy; `SuffixIsSegmentSuffix`,
  `PrefixIsOwnFile` and `PrefixIsPackage` say when a test is precise, and `TierPrecision.PolicyIsPrecise` exactly
  when the answer of the whole policy is not the one described.
- Incremental mining extends from the recorded commit as long as its object exists
  (`src/cochange.rs:155-184`, `382-385`), and never drops a commit: one that an amend replaced is counted twice,
  one that has left the one-year window stays (`CochangeRanges.AmendedCommitCountsTwice`, `ExpiredCommitStays`).
  `CochangeRanges.IncrementalIsFull` says exactly when the result is that of a full mine.

## Model

| member | source | states |
|---|---|---|
| `MoveChecker.StringEnd` | scripts/check_moved_fn_bodies.py:46-51 | the string literal at `i` ends strictly ahead of `i` and within the text, where the lexical grammar of the remaining text ends it |
| `MoveChecker.RawEnd` | scripts/check_moved_fn_bodies.py:54-63 | the end of a raw string with any number of `#`, or none when no raw string starts there |
| `MoveChecker.CharEnd` | scripts/check_moved_fn_bodies.py:66-73 | the end of a char literal, or none for a lifetime |
| `MoveChecker.CommentEnd` | scripts/check_moved_fn_bodies.py:76-91 | the end of a line comment or of a nested block comment, or none |
| `MoveChecker.LiteralEnd` | scripts/check_moved_fn_bodies.py:94-111 | the end of whichever literal starts at `i`, prefixes `r`, `b`, `br`, `c`, `cr` included |
| `MoveChecker.Skip` | scripts/check_moved_fn_bodies.py:114-119 | never behind `i` nor past the end, and where the comment or literal ends |
| `MoveChecker.Matching` | scripts/check_moved_fn_bodies.py:122-137 | the end of the bracket group, brackets inside comments and literals not counted |
| `MoveChecker.BodyEnd` | scripts/check_moved_fn_bodies.py:140-167 | the end of the body, or the `;` of a declaration outside every bracket |
| `MoveChecker.NormaliseText` | scripts/check_moved_fn_bodies.py:170-192 | the loop computes the normal form of the whole text |
| `MoveChecker.FunctionEnd` | scripts/check_moved_fn_bodies.py:221-229 | a name is found exactly when a function starts here, with its name and end |
| `MoveChecker.FnBodiesOf` | scripts/check_moved_fn_bodies.py:195-241 | the scan counts exactly the functions of the text, each with its normalised text from its prefix on |
| `MoveChecker.SideOf` | scripts/check_moved_fn_bodies.py:254-258 | the Counter of one side is the multiset sum over the listed files |
| `Prelude.SpacesAre` | scripts/check_moved_fn_bodies.py:174-177 | the white space that is collapsed, by the codes of its characters |
| `LexemeShapes.StringIsRead` | scripts/check_moved_fn_bodies.py:46-51 | a string literal spelled from any plain characters and escapes ends at its own closing quote, whatever follows |
| `LexemeShapes.RawLiteralIsRead` | scripts/check_moved_fn_bodies.py:54-63 | a raw string with each prefix and any number of `#` ends at its own delimiter, for every text that does not hold that delimiter |
| `LexemeShapes.CloseIsQuoteAndHashes` | scripts/check_moved_fn_bodies.py:54-63 | its delimiter is a quote and as many hashes as it opened with |
| `LexemeShapes.PrefixedStringIsRead` | scripts/check_moved_fn_bodies.py:94-111 | byte and C strings end at their own closing quote |
| `LexemeShapes.CharIsRead` | scripts/check_moved_fn_bodies.py:66-73 | a char or byte literal of any one character is read whole |
| `LexemeShapes.EscapeIsRead` | scripts/check_moved_fn_bodies.py:66-73 | so is one of any escape, `\'` and `\u{...}` included |
| `LexemeShapes.LifetimeIsNoLiteral` | scripts/check_moved_fn_bodies.py:66-73 | a lifetime starts no literal |
| `LexemeShapes.CommentIsRead` | scripts/check_moved_fn_bodies.py:76-91 | a block comment of any nesting ends at its own delimiter |
| `LexemeShapes.StringsHideBraces` | scripts/check_moved_fn_bodies.py:25-28 | a string literal in a body moves the end of the body by its length and in no other way: its braces do not count |
| `LexemeShapes.LiteralsHideBraces` | scripts/check_moved_fn_bodies.py:25-28 | the same for a literal of any kind |
| `LexemeShapes.CommentsHideBraces` | scripts/check_moved_fn_bodies.py:25-28 | the same for nested block comments |
| `FnShapes.BodyIsFound` | scripts/check_moved_fn_bodies.py:140-167 | for any signature with balanced braces and no semicolon outside brackets, any balanced body and any text behind it, the search ends at the end of the body if and only if the signature has no brace outside literals and comments, and else inside the signature |
| `FnShapes.DeclarationIsFound` | scripts/check_moved_fn_bodies.py:143-145 | a declaration whose signature has no brace ends before its semicolon |
| `FnShapes.GroupIsMatched` | scripts/check_moved_fn_bodies.py:122-137 | a balanced bracket group ends at its own closing bracket, whatever literals and comments it holds |
| `RustLexemes.SkipLocal` | scripts/check_moved_fn_bodies.py:114-119 | a comment or literal that closes before the end of a text is the same when more text follows |
| `RustLexemes.MatchLocal` | scripts/check_moved_fn_bodies.py:122-137 | a bracket group that closes inside a text closes there whatever follows |
| `RustLexemes.BodyLocal` | scripts/check_moved_fn_bodies.py:140-167 | a body that closes inside a text closes there whatever follows |
| `FnBodies.NormaliseDetectsVisibleChange` | scripts/check_moved_fn_bodies.py:170-192 | two texts with one normal form have the same non-blank characters in the same order |
| `FnTokens.NormalFormSpells` | scripts/check_moved_fn_bodies.py:170-192 | the normal form spells out the tokens of the text: literals byte for byte, comments with their blanks collapsed, single characters, a blank for each gap |
| `NormalForms.NormalFormIsFaithful` | scripts/check_moved_fn_bodies.py:18-19 | the normal form, read again, gives back the tokens of the text if and only if no line comment is followed by a token and no lone `'` by blanks and a `'` |
| `NormalForms.NormalFormFixesTokens` | scripts/check_moved_fn_bodies.py:18-19 | among such texts equal normal forms mean equal tokens and conversely, blanks inside literals included |
| `NormalForms.SameNormalForm` | scripts/check_moved_fn_bodies.py:18-19 | texts without a lone `'` before blanks and a `'` have the same tokens if and only if they have one normal form and the same line comments |
| `FnBodies.FunctionsAreCutFromText` | scripts/check_moved_fn_bodies.py:195-241 | every reported text is cut out of the file, the cuts in order and disjoint |
| `WholeFunctions.FunctionIsFound` | scripts/check_moved_fn_bodies.py:14-17 | of attributes, doc comments, visibility, qualifiers and ABI, `fn`, a name, a signature and a body the scan reports exactly one function, under its name and with the whole text from the first of these on, if and only if nothing before `fn` makes it forget (an attribute split at its `#`, a restriction split from its `pub`, an ABI that is no plain string, any other word than the six qualifiers), blanks alone follow `fn`, the name is an ASCII word and the signature has no brace |
| `FnItems.OtherWordTurn` | scripts/check_moved_fn_bodies.py:216-240 | any word but `fn`, `pub`, `const`, `async`, `unsafe`, `extern` and `default` makes the scan forget what it has read |
| `FnItems.InnerAttributeTurn` | scripts/check_moved_fn_bodies.py:211-213 | an attribute of the enclosing item is passed over as a whole and ends the prefix |
| `FnItems.ShebangTurn` | scripts/check_moved_fn_bodies.py:211-213 | `#!` without a bracket behind it is no attribute |
| `WholeFunctions.OrdinaryChunk` | scripts/check_moved_fn_bodies.py:195-241 | such a function with a line break is a well-delimited chunk that holds it and no other |
| `FnBodies.FunctionsOfConcat` | scripts/check_moved_fn_bodies.py:195-241 | scanning a closed text followed by any text finds what scanning each of them finds |
| `FnBodies.BodiesOfChunks` | scripts/check_moved_fn_bodies.py:195-241 | the bodies of a file are the multiset sum of the bodies of its well-delimited chunks |
| `FnBodies.CompareNames` | scripts/check_moved_fn_bodies.py:261-271 | which of lost, added, changed a name is in, from how often its texts occur on each side |
| `FnBodies.CompareExact` | scripts/check_moved_fn_bodies.py:261-271 | nothing is reported exactly when both sides hold the same functions equally often |
| `FnBodies.MovesAreAccepted` | scripts/check_moved_fn_bodies.py:7-10 | moving whole chunks within or between the listed files, in any order, is accepted |
| `FnBodies.EditsAreReported` | scripts/check_moved_fn_bodies.py:7-12 | replacing one chunk, wherever all chunks end up, is accepted if and only if it still holds functions of the same names and normal forms |
| `WholeEdits.OrdinaryEditIsReported` | scripts/check_moved_fn_bodies.py:3-17 | an edit of such a function, of its attributes, qualifiers, signature or body, wherever all chunks end up, that keeps its line comments is reported if and only if it changes the name or a token |
| `WholeEdits.BodyBehindBraceIsUnseen` | scripts/check_moved_fn_bodies.py:150-166 | what stands behind a brace group in the signature can change into any text without `fn`, and nothing is reported |
| `WholeEdits.BraceInSignature` | scripts/check_moved_fn_bodies.py:150-166 | a changed call in the body of `fn f(x:[u8;{4}])`, as an input |
| `WholeEdits.PrefixBeforeAbiIsUnseen` | scripts/check_moved_fn_bodies.py:216-221 | whatever attributes and qualifiers stand before an ABI that is no plain string, no change of them is reported |
| `WholeEdits.RawAbiHidesPub` | scripts/check_moved_fn_bodies.py:216-221 | the removal of `pub` before such an ABI, as an input |
| `FnEdits.FunctionEditIsReported` | scripts/check_moved_fn_bodies.py:236-241 | for chunks with one reported text each, an edit that keeps the line comments is reported if and only if the name or a token of that text changes |
| `FnEdits.TokenChangesAreReported` | scripts/check_moved_fn_bodies.py:261-271 | whatever changes and moves at once, as long as functions of one name and normal form have the same line comments, nothing is reported if and only if both sides hold the same names with the same tokens equally often |
| `FnEdits.CommentsFixTokens` | scripts/check_moved_fn_bodies.py:225-230 | the names, normal forms and line comments of a side, counted, fix its names and tokens, and conversely: the comments are all that the counter lacks |
| `FnExamples.ExpressionBecomesComment` | scripts/check_moved_fn_bodies.py:187-191 | an edit that moves an expression into a line comment: the tokens differ and nothing is reported |
| `Decimal.ParseOfNumeral` | src/git_diff.rs:174 | every 64-bit number is read back from its decimal numeral |
| `Decimal.ParseBounds` | src/git_diff.rs:174 | a plus sign is accepted, a number beyond 64 bits is not |
| `UnifiedDiff.ParseUnifiedDiff` | src/git_diff.rs:99-167 | the loop over mutable fields computes the run of the line state machine, the overflow error included |
| `DiffRoundTrip.RoundTrip` | src/git_diff.rs:99-167 | parsing the diff `git` prints for any file edits gives one record per file with hunks, with path, flags and every line position, if and only if each path with hunks is shown without a tab or quotes, no changed line is mistaken for a header and no change follows a no-newline marker |
| `DiffRoundTrip.EveryFileIsRecorded` | src/git_diff.rs:99-167 | it gives a record of every file if and only if, in addition, every file is printed with hunks |
| `DiffRoundTrip.SidePathIsPath` | src/git_diff.rs:115-129 | the path taken from the printed `---` and `+++` lines is the file's own if and only if that path is plain |
| `DiffExamples.SmallRoundTrip` | src/git_diff.rs:99-167 | for diffs whose hunk starts and lines stay below half of the 64-bit range the parse is that list of records if and only if every edit is clean: no refusal remains |
| `DiffExamples.HeaderLookAlikes` | src/git_diff.rs:115-147 | a removed `-- note` and an added `++i;` on which the round trip fails |
| `DiffExamples.UnusualPaths` | src/git_diff.rs:126-129 | a path with a space and a quoted path on which it fails |
| `DiffExamples.HeadersAloneLeaveNothing` | src/git_diff.rs:107-119 | an edit printed with headers alone leaves no record |
| `DiffExamples.RenameLeavesNothing` | src/git_diff.rs:107-119 | a pure rename, as an input |
| `DiffRoundTrip.FileRun` | src/git_diff.rs:107-151 | from any state between two files a printed file is read into its record if and only if the edit is clean |
| `DiffRoundTrip.RecordedExact` | src/git_diff.rs:136-153 | the recorded positions of a hunk are the true ones if and only if no changed line comes after a no-newline marker |
| `DiffRoundTrip.AddedLineNumber` | src/git_diff.rs:136-141 | the position of an added line is its 1-based number in the new file |
| `DiffRoundTrip.PositionOf` | src/git_diff.rs:136-147 | a changed line is recorded at the hunk's new start plus the new-file lines before it, an added line being the next of these |
| `DiffRoundTrip.HunkHeaderStep` | src/git_diff.rs:169-175 | a printed hunk header sets the counter to the start of the new range, whatever section text follows |
| `DiffRoundTrip.SmallDiffsAreRead` | src/git_diff.rs:137-153 | the overflow guard refuses no diff whose line numbers stay below half of the 64-bit range |
| `DiffRoundTrip.CounterIsGuarded` | src/git_diff.rs:136-153 | an added or context line is refused from the largest signed 64-bit number on and moves the counter by one below, a removed one never moves it |
| `DiffRoundTrip.BareFileIsRead` | src/git_diff.rs:99-167 | a file printed without its `diff --git` line is read in the same way |
| `DiffRoundTrip.LastLineWithoutBreak` | src/git_diff.rs:148-153 | a concrete edit of a last line without a line break on which the round trip fails |
| `GraphCache.GraphCache.GetWithOpener` | src/graph_cache.rs:189-238 | the new entries and the returned handle are those of one lookup, and the number of opens grows only on a miss that succeeds |
| `GraphCache.GraphCache.EvictIfOverCapacity` | src/graph_cache.rs:243-256 | the loop removes oldest entries until the cache fits |
| `GraphCache.GraphCache.Release` | src/graph_cache.rs:296-322 | refuses a busy cache and an entry with two references or more, drops the entry otherwise, and leaves every other entry |
| `GraphCache.MinByOpenedSeq` | src/graph_cache.rs:245-249 | the victim is an entry with the smallest opening number |
| `GraphCache.EvictionKeepsNewest` | src/graph_cache.rs:240-256 | eviction keeps as many entries as fit, unchanged, and every one of them is newer than every one it drops |
| `GraphCache.LookupEvictsOldest` | src/graph_cache.rs:189-256 | after any lookup at most eight entries remain, none is dropped while there is room, and the entry just returned never is |
| `GraphCache.LookupIsFresh` | src/graph_cache.rs:274-278 | with fingerprints that tell generations apart, a lookup returns a handle on the generation now on disk and keeps the cache honest |
| `GraphCache.LookupAgain` | src/graph_cache.rs:274-278 | a second lookup with no change on disk returns the same handle and opens nothing |
| `HandleProtocol.ReleaseLeavesNoHandle` | src/graph_cache.rs:284-322 | when the hook answers Ok, no live handle of that graph is left, in a request or in the cache |
| `HandleProtocol.ReleaseIsExact` | src/graph_cache.rs:296-322 | the hook answers Ok exactly when no request holds the graph, cached or not, and a refusal leaves the cache as it was |
| `HandleProtocol.WritesLandExactly` | src/graph_cache.rs:284-322 | a write lands and a removal removes exactly when no request holds the graph, and a refused one changes nothing at all |
| `HandleProtocol.ClosesWithLastReference` | src/graph_cache.rs:284-295 | the handles that close when the entries change are those that were cached, are cached no more and are not held |
| `HandleProtocol.DropClosesLast` | src/graph_cache.rs:284-295 | a dropped handle closes exactly when no reference to it is left |
| `HandleProtocol.ReleaseCloses` | src/graph_cache.rs:284-295 | the hook closes the handle it takes from the cache |
| `HandleProtocol.ClosingWritesBack` | src/graph_cache.rs:284-288 | a handle that closes writes the generation it sees back to its graph, and to no other |
| `HandleProtocol.StepKeepsGood` | src/graph_cache.rs:189-322 | every read, drop, write, removal and shutdown keeps the invariant, unless the step is careless |
| `HandleProtocol.CarefulRunsLoseNothing` | src/graph_cache.rs:284-288 | in every run without careless steps no close undoes a write and every held handle sees the disk |
| `HandleProtocol.CareIsExact` | src/graph_cache.rs:189-256 | a step opens the way to an undone write if and only if it opens a graph while the cache is full and its oldest handle held, or creates a graph under a foreign spelling |
| `GraphCache.InsertDropsOldest` | src/graph_cache.rs:225-256 | opening a graph that is not cached gives up the entry opened first when the cache is full, and no entry otherwise |
| `HandleProtocol.EvictionIsForeseen` | src/graph_cache.rs:243-256 | an open gives up a held handle if and only if the cache is full before it and the handle opened first is held |
| `HandleProtocol.EvictedHandleLoses` | src/graph_cache.rs:243-256 | an open while the cache is full and its oldest handle held makes a lost write reachable |
| `HandleRuns.NineReadsLose` | src/graph_cache.rs:243-256 | from any good world with nothing cached, reading nine graphs while holding the first, writing the first and dropping its handle loses the write |
| `HandleRuns.NineGraphsLose` | src/graph_cache.rs:243-256 | that run with nine concrete graphs from the start of the server |
| `HandleRuns.RequestsLoseNothing` | src/graph_cache.rs:17-24 | from the start of the server, requests that run one after the other and read one existing graph each lose nothing, however many graphs they read in all and whatever they write |
| `HandleProtocol.MisfiledGraphLoses` | src/graph_cache.rs:194-197 | a graph created under another spelling than its own can have a write undone |
| `HandleProtocol.EvictionIsTheOnlyWay` | src/graph_cache.rs:189-256 | a read of an existing path opens the way to an undone write if and only if it opens while the cache is full and its oldest handle held |
| `SharedReads.ReadsShareOneHandle` | src/graph_cache.rs:274-278 | in every run of reads of any graphs, drops, writes and removals that keeps a graph cached, all reads of that graph return one handle and none opens it |
| `SharedReads.OneOpenInTotal` | src/graph_cache.rs:173-176 | with the read that brings the graph into the cache there is at most one open in total |
| `HandleProtocol.FirstReadOpensOnce` | src/graph_cache.rs:173-176 | a careful first read opens at most once and leaves the graph cached |
| `Calendar.CivilIsNaive` | src/handler_util.rs:85-105 | for every day count the constant-time date is the one reached by stepping a naive Gregorian calendar from 1970-01-01 |
| `Calendar.DayNumberOfCivil` | src/handler_util.rs:85-105 | counting days up to that date gives back the day count |
| `Calendar.CivilIsExact` | src/handler_util.rs:85-105 | the civil time is valid and determines its second |
| `Calendar.CivilAdvances` | src/handler_util.rs:85-105 | later seconds have later civil times |
| `Calendar.YearContainsDay` | src/handler_util.rs:95-98 | the division formula finds the one year of the 400-year era that contains the day |
| `RunIds.TimestampsAreSpelt` | src/handler_util.rs:70-80 | both formats spell the six fields of the civil time with their separators and widths |
| `RunIds.TimestampOrder` | src/handler_util.rs:70-80 | among years of equal width both formats are ordered as strings exactly as in time |
| `RunIds.TimestampsSort` | src/handler_util.rs:70-80 | so they are for all times before year 10000, the ordering property of section 5.1 of RFC 3339 |
| `RunIds.YearTenThousandSortsFirst` | src/handler_util.rs:70-80 | and no longer at the first second of year 10000, which sorts before the second before it |
| `RunIds.SortableTimes` | src/handler_util.rs:70-80 | each format is ordered as time is on all times below a limit if and only if the limit is not beyond year 9999 |
| `RunIds.ValidateSafeId` | src/handler_util.rs:120-157 | accepts exactly the safe ids, and reports each error exactly when its rule is the first that is broken |
| `RunIds.SafeIdIs` | src/handler_util.rs:120-157 | a safe id has 1 to 128 letters, digits, dots, underscores and hyphens, does not start with a dot and is not of the form `a..b` |
| `RunIds.SafeCharsAre` | src/handler_util.rs:147-148 | these characters, by their codes |
| `RunIds.Utf8LenIsLeast` | src/handler_util.rs:127 | the length is counted in bytes of UTF-8 |
| `Xorshift.RetreatUndoes` | src/atomic_file.rs:59-61 | the shift-xor step can be undone, so no two states have one successor |
| `Xorshift.AdvanceNeverZero` | src/atomic_file.rs:59-61 | it maps zero, and zero only, to zero |
| `Xorshift.StatesDoNotMeet` | src/atomic_file.rs:57-61 | two runs that start apart never meet |
| `Xorshift.SeedTellsProcessesApart` | src/atomic_file.rs:36-56 | at one time two processes have different seeds, unless a mix vanishes |
| `Xorshift.ClockCounts` | src/atomic_file.rs:36-48 | seconds and nanoseconds enter the seed, each by its constant |
| `RunIds.RandomSuffix` | src/atomic_file.rs:35-66 | the suffix has the asked length, and its letters are those of the successive states |
| `RunIds.GenerateRunId` | src/handler_util.rs:107-114 | a generated id is the compact timestamp, a dash and six letters of the alphabet, and is safe |
| `RunIds.RunIdIsSafe` | src/handler_util.rs:107-157 | every id of that shape passes validation, for every 64-bit second count |
| `Cochange.CochangeState.Accumulate` | src/cochange.rs:206-235 | the nested loops fold each commit into the two maps, sweeps and single-file commits treated as the source does |
| `Cochange.CochangeState.AccumulatePairs` | src/cochange.rs:219-233 | every unordered pair of positions of a commit is bumped once |
| `Cochange.KeyRoundTrip` | src/cochange.rs:398-407 | a key gives back its two paths when these have no unit separator |
| `Cochange.KeyNamesPair` | src/cochange.rs:390-400 | two pairs share a key if and only if they are the same unordered pair |
| `Cochange.SweepsAreNoise` | src/cochange.rs:206-213 | commits of up to 20 files count, larger ones not at all |
| `CochangeCounts.AccumulatedCounts` | src/cochange.rs:206-235 | from any prior state each file and pair gains exactly its occurrences, and the pair's time becomes the latest seen |
| `CochangeCounts.MinedCounts` | src/cochange.rs:206-235 | mined from scratch a file count is the number of counted commits with the file, a pair count the number with both, and its time their maximum or 0 |
| `CochangeCounts.OrderDoesNotMatter` | src/cochange.rs:206-235 | the result is the same for every order of the commits |
| `CochangeCounts.ExtendingIsRemining` | src/cochange.rs:52-59 | extending a mined state with newer commits is mining all of them, listed newest first |
| `CochangeRanges.MineIs` | src/cochange.rs:155-184 | a full mine starts from nothing, an incremental one extends a state whose commit is known and is a full one otherwise |
| `CochangeRanges.KnownIs` | src/cochange.rs:382-385 | a commit is known when its id is hexadecimal and the clone has the object |
| `CochangeRanges.IncrementalIsAlike` | src/cochange.rs:155-184 | extending any state gives what a full mine gives if and only if the commits counted in all and those of the window agree on how often each file and pair occurs and on the latest time of each pair, a state cut by the commit cap included |
| `CochangeRanges.IncrementalIsFull` | src/cochange.rs:155-184 | as long as no commit of the window is missed, extending gives what a full mine of the window gives if and only if every commit counted beyond the window, or twice, has no counted file |
| `CochangeRanges.FullMineCovers` | src/cochange.rs:173-182 | a full mine that the commit cap does not cut counts every commit of its window |
| `CochangeRanges.ExtendingCovers` | src/cochange.rs:161-171 | extending such a state misses no commit of the new window, histories rewritten or not |
| `CochangeRanges.SameToTheMiner` | src/cochange.rs:206-235 | two collections of commits give one state if and only if they agree on how often each file and pair occurs and on the latest time of each pair |
| `CochangeRanges.AmendedCommitCountsTwice` | src/cochange.rs:382-385 | an amended commit on which extending and a full mine differ |
| `CochangeRanges.ExpiredCommitStays` | src/cochange.rs:161-182 | a commit that left the window on which they differ |
| `CochangeEdges.RewriteEdges` | src/cochange.rs:241-297 | the edge set is rebuilt from the pairs that clear the thresholds and join two file nodes, and their number is returned |
| `CochangeEdges.PairsAreSupported` | src/cochange.rs:206-235 | in a mined state a pair count is positive and at most the count of either file |
| `CochangeEdges.EdgeBounds` | src/cochange.rs:244-284 | in a mined state an edge exists if and only if the pair is frequent and coupled enough; its support is the smaller file count, coupling and jaccard are the shared commits over it and over those that touch either file, both in (0, 1], and its time is that of the last shared commit |
| `CochangeEdges.EdgeOfAnyState` | src/cochange.rs:244-267 | when a pair of any state has an edge, and its jaccard |
| `CochangeEdges.EdgesJoinNodes` | src/cochange.rs:272-293 | the edges are those of the pairs that join two nodes, and these are counted |
| `CochangeEdges.PairsAreConserved` | src/cochange.rs:219-233 | the pair counts sum to n(n-1)/2 over the counted commits of n files |
| `Paging.BoundValuesPaged` | src/response_budget.rs:148-180 | the page from the cursor on is the greedy one, with its flag and next cursor |
| `Paging.BoundValues` | src/response_budget.rs:191-219 | the uncursored form is the first page, and `truncated` says that items are missing |
| `Paging.TakenFits` | src/response_budget.rs:155-166 | a page is within the budget unless it is one oversized row, and the next row would have exceeded it |
| `Paging.ClipProbeRow` | src/query_handlers.rs:142-148 | keeps the row window and reports the probe row exactly when it cut one off |
| `Paging.OneProbeRow` | src/query_handlers.rs:127-137 | the injected limit asks for one row past the window |
| `Paging.RunGatedCypher` | src/query_handlers.rs:92-124 | the composed request computes one answer from LIMIT, clip and byte budget |
| `Paging.AnswerIsPage` | src/query_handlers.rs:216-270 | the rows start at the cursor and cannot grow, `truncated` holds exactly when a row remains, `next_offset` is then that row, and `total_count` is exact unless the window cut the result |
| `Paging.CursorVisitsAll` | src/response_budget.rs:141-147 | for every budget and from every cursor on, following `next_offset` visits each element exactly once, in order, on pages that fit |
| `Paging.CursorIsOptimal` | src/response_budget.rs:148-180 | for every budget no division into pages that fit has fewer pages |
| `Paging.FollowingVisitsAll` | src/query_handlers.rs:216-270 | the same visit of every row for `query_graph`, with its row window and its budget |
| `Paging.PagingIsOptimal` | src/query_handlers.rs:216-270 | no division of its result into consecutive legal pages has fewer pages |
| `Sidecars.OutputDir.PersistFullIndexSidecars` | src/indexing_handlers.rs:167-183 | manifest first, meta after it also when its write failed, coverage last, whose failure is not reported |
| `Sidecars.OutputDir.PersistAnalyzeSidecars` | src/analyze_handlers.rs:261-279 | a failed coverage write fails the analysis and changes nothing; after it a failed manifest write leaves both sidecars as they were and is reported beside the success |
| `Sidecars.FailedCoverageStops` | src/analyze_handlers.rs:261-279 | such a failure is a run that stops before both sidecars |
| `Sidecars.OutputDir.WriteGraphMeta` | src/query_handlers/graph_paths.rs:135-153 | a successful write names the manifest that is there, a failed one keeps the old meta |
| `Sidecars.StepsAreTheMethods` | src/indexing_handlers.rs:142-176 | the steps of one index, undisturbed, leave the disk that the methods promise |
| `Sidecars.FailedIncrementalIsFull` | src/indexing_handlers.rs:99-139 | an incremental index that cannot write its manifest goes on as a full one |
| `Sidecars.VerdictsPairOneRun` | src/graph_freshness.rs:173-203 | in every interleaving of a reader with index runs that stop anywhere, a verdict pairs sidecars of one run if and only if the run of the meta had written its manifest |
| `Sidecars.VerdictsAreSound` | src/graph_freshness.rs:50-64 | so every verdict is sound as long as no full index fails to write its manifest |
| `Sidecars.FailedFullIndexPairsTwoRuns` | src/indexing_handlers.rs:171-176 | a full index without a manifest makes the reader pair two runs |
| `Sidecars.CompletedRunPairs` | src/indexing_handlers.rs:142-150 | an undisturbed completed run is always accepted by the next reader |
| `Sidecars.ReceiptIsExact` | src/graph_freshness.rs:206-232 | unknown if and only if there was nothing to check; else stale if and only if some file is not contained, missing or different or HEAD has moved, with the number of such files and both distances of HEAD |
| `Sidecars.FreshIsChecked` | src/graph_freshness.rs:206-232 | a receipt that is not stale means that something was examined and nothing differed, in both directions |
| `AmbiguityPolicy.UniqueMatch` | src/ambiguity_policy.rs:240-254 | the loop finds the only candidate that passes |
| `AmbiguityPolicy.OrderInvariance` | src/ambiguity_policy.rs:178-182 | any order of the candidates gives the same variant, target, evidence and confidence, ambiguous lists compared as multisets |
| `AmbiguityPolicy.StrongestTierDecides` | src/ambiguity_policy.rs:184-207 | for two or more candidates each answer occurs if and only if its tier singles one candidate out and no stronger tier does |
| `AmbiguityPolicy.FewCandidates` | src/ambiguity_policy.rs:184-190 | no candidate is not found, and a single one is the answer |
| `AmbiguityPolicy.ConfidenceIsMonotone` | src/ambiguity_policy.rs:95-133 | stronger evidence gives more confidence |
| `AmbiguityPolicy.ColonsBecomeSlash` | src/ambiguity_policy.rs:260-263 | each `::` becomes a slash before names and imports are compared |
| `AmbiguityPolicy.DotsBecomeSlashes` | src/ambiguity_policy.rs:263 | and in imports each dot does |
| `TierPrecision.SuffixIsSegmentSuffix` | src/ambiguity_policy.rs:256-266 | a name and an import match by path segments if and only if they match by characters and the longer one is cut where a segment starts |
| `TierPrecision.MatchIgnoresSegments` | src/ambiguity_policy.rs:256-266 | a match that ends inside a path segment |
| `TierPrecision.PrefixIsOwnFile` | src/ambiguity_policy.rs:194-196 | a name is defined in the caller's file if and only if it passes the tier's test and `::` follows the file |
| `TierPrecision.PrefixIsPackage` | src/ambiguity_policy.rs:199-201 | a name is in the caller's package if and only if it passes the tier's test and ends there or a separator follows |
| `TierPrecision.OtherFileIsAccepted` | src/ambiguity_policy.rs:194-196 | a name of another file that passes the test for the caller's file |
| `TierPrecision.TierAgrees` | src/ambiguity_policy.rs:240-254 | a tier with a laxer test answers otherwise than the intended one if and only if a candidate that only the laxer test passes is alone, or stands beside the one the intended test singles out |
| `TierPrecision.PolicyIsPrecise` | src/ambiguity_policy.rs:184-207 | the policy does not answer as with segments, the own file and the own package at all three tiers if and only if a stray candidate misleads the import tier, or the file tier when no import matches alone, or the package tier when the file tier singles out none either |
| `TierPrecision.ImportTierErrs` | src/ambiguity_policy.rs:191-193 | two symbols between which an import decides that names neither |
| `TierPrecision.FileTierErrs` | src/ambiguity_policy.rs:194-198 | two symbols of which the one in another file is taken for the caller's own |
| `TierPrecision.PackageTierErrs` | src/ambiguity_policy.rs:199-203 | two symbols of which the one in another package is taken for one of the caller's |
| `CallEvidence.StripRemovesSuffix` | src/call_evidence.rs:42-47 | a final `#` with digits is removed, and only that one |
| `CallEvidence.StripChangesOnlySuffixed` | src/call_evidence.rs:36-47 | a name is unchanged if and only if it does not end in `#` and digits |
| `CallEvidence.BareNameIsLast` | src/call_evidence.rs:110-112 | the bare name is what follows the last `::`, without its sequence number |
| `CallEvidence.TwoPassAnswers` | src/call_evidence.rs:97-108 | of two or more candidates, with any packages, the one whose package and bare name alone match an import is the answer, by import match; when there is none it is that of the policy on the stripped names with the caller's file and package |
| `CallEvidence.UnkeyedAnswers` | src/call_evidence.rs:176-194 | the answer is about the candidates themselves, in their order |
| `CallEvidence.PackagePassIsImportMatch` | src/call_evidence.rs:114-156 | on two or more candidates the first pass answers if and only if one package key alone matches an import, and then by import match |
| `CallEvidence.NoPackageNoAnswer` | src/call_evidence.rs:84-90 | without packages and with one shared bare name the first pass answers nothing |
| `CallEvidence.TwoPassIsOnePass` | src/call_evidence.rs:92-108 | for a language without packages the two passes equal the policy on the stripped names |
| `LspClient.Client.SendRequest` | src/lsp_client.rs:334-356 | the request gets the next id and every queued frame is discarded before it waits |
| `LspClient.Client.SendNotification` | src/lsp_client.rs:358-360 | a notification discards the queued frames, takes no id and waits for no answer |
| `LspClient.Client.NextFrame` | src/lsp_client/frames.rs:73-87 | the queue's first frame, or end of stream or a timeout |
| `LspClient.Client.ReadOnce` | src/lsp_client.rs:391-409 | one turn passes a frame over, returns the answer, or fails on an error the policy does not absorb |
| `LspClient.Client.ReadResponse` | src/lsp_client.rs:385-411 | returns the answer the session recorded, a message without a method that carries the id, or fails on such an error, on silence, or after passing over a frame in every turn until the deadline |
| `LspSession.StepKeepsGood` | src/lsp_client.rs:334-411 | every step keeps the invariant, whatever frame arrives |
| `LspSession.EveryRunIsGood` | src/lsp_client.rs:374-411 | in every run each answer is the first frame since its request was sent that has its id and no method, all frames before it being passed over, and exchanges never overlap |
| `LspSession.AnswersByTheirFields` | src/lsp_client.rs:374-411 | in every run an answer is a message without a method that carries the id of its request, and every frame between the two has a method, another id, or an unreadable payload where these are skipped |
| `LspSession.ResponseHasIdAndNoMethod` | src/lsp_client.rs:450-452 | a response to an id is a message without a method that carries it |
| `LspSession.LateAnswersAreNeverTaken` | src/lsp_client.rs:374-411 | no frame that answers another request is returned for this one, and no frame is returned twice |
| `LspSession.StopsAtFirst` | src/lsp_client.rs:396-409 | the loop stops exactly at the first frame it does not pass over: a response is returned, a fatal frame fails, a bad payload fails the probe only |
| `LspSession.IdsAreFresh` | src/lsp_client.rs:334-336 | the wrapping counter repeats an id only after all 2^64 of them |
| `LspSession.IdsStartAtOne` | src/lsp_client.rs:334-336 | the first id is 1, and behind the largest comes the smallest |
| `LayoutBlock.LayoutPaths` | scripts/check_doc_claims.py:247-270 | takes the block apart into its lines and computes the paths line by line |
| `LayoutTree.ReadLines` | scripts/check_doc_claims.py:257-269 | the loop with its stack of parents computes the paths line by line |
| `LayoutTree.EntryIs` | scripts/check_doc_claims.py:258-262 | a line belongs to the tree at a depth with a label exactly when it is that many four-character columns, a branch and the label |
| `LayoutTree.JoinComesApart` | scripts/check_doc_claims.py:266 | a path comes apart into the names it was joined from |
| `LayoutBlock.BlockIsRead` | scripts/check_doc_claims.py:247-270 | reading the text of the drawing of any tree whose names avoid the separators and line breaks, files and directories several to a line included, gives its paths in preorder with their line numbers |
| `LayoutBlock.CrLfIsOneBreak` | scripts/check_doc_claims.py:257 | a carriage return with a line feed ends one line |
| `LayoutTree.DrawingIsRead` | scripts/check_doc_claims.py:247-270 | the lines of such a drawing give the paths in the same way |
| `LayoutTree.DrawnForestIsRead` | scripts/check_doc_claims.py:250-253 | below any stack, the nodes of a drawn subtree are read under their true ancestors, and the stack still begins with these afterwards |
| `FindingIndex.IndexFile.UpsertIndexEntry` | src/finding_index.rs:88-115 | one entry is merged and every other one kept; an unreadable or unwritable file stays as it was |
| `FindingIndex.IndexFile.Record` | src/finding_index.rs:57-76 | each stage merges the entry it builds in its own mode |
| `FindingIndex.EachStageOwnsItsFields` | src/finding_index.rs:53-76 | after any history the index has exactly the findings worked on, each with the refined fields of its last refine, the stage-2 fields of its last finalize and the best artifact path |
| `FindingIndex.ModesKeep` | src/finding_index.rs:118-185 | what each mode keeps of the existing entry |
| `FindingIndex.ExtractedFindingHasArtifact` | src/finding_index.rs:144-156 | once extracted, a finding names its refined artifact if any refine ran, and its extracted one otherwise |
| `FindingIndex.FinalizedFindingHasVerdict` | src/finding_index.rs:173-185 | once finalized, a finding names its verified artifact, verdict and time, whatever ran since |
| `FindingIndex.OtherFindingsLeaveNoTrace` | src/finding_index.rs:88-115 | an entry depends only on the stages of its own finding |

## Left out

- The embedded database, Cypher and its lexical gates: a query is a fixed sequence of rows, `insert_edge` a set update, and whether a LIMIT was injected is a parameter.
- The indexer, parsers, resolver, clustering and search: not part of this model.
- Files, git, subprocesses and clocks: disks are maps, the log is a sequence of commits, times and outcomes of writes are parameters.
- `CochangeEdges.EdgeBounds`: coupling and jaccard are exact ratios; rounding of 64-bit floats and the four-digit rendering are not modelled.
- `CochangeRanges.IncrementalIsFull`: `--since` is a filter on the commit times; that no commit of the window is missed is asked of the state here, and not in `CochangeRanges.IncrementalIsAlike`.
- `CochangeCounts.AccumulatedCounts`: counts are unbounded integers; overflow of the 64-bit counters is not modelled.
- `CochangeCounts.MinedCounts`: commits list each file once, as `git log --name-only` does, and paths have no unit separator.
- `GraphCache.LookupIsFresh`: fingerprints are assumed to tell generations apart, and the entry's handle to see the generation that was fingerprinted; writers in other processes are not modelled.
- `HandleProtocol.CarefulRunsLoseNothing`: handles close in one step; a borrowed cache (a re-entrant call from inside an open) occurs in `GraphCache.GraphCache.Release` only.
- `Paging.AnswerIsPage`: rows are byte strings of fixed size in a fixed order, and the result is more than 500 rows shorter than the 64-bit limit.
- The share of the byte budget that several sections of one response get: no bound on their sum is claimed.
- `DiffRoundTrip.RoundTrip`: `git` in its default configuration (`core.quotePath` on, `a/` and `b/` prefixes); binary files and combined diffs are not printed.
- `Calendar.CivilIsNaive`: day counts are natural numbers; the source's signed shift for days before the epoch cannot be reached from its unsigned seconds.
- `RunIds.RandomSuffix`: the clock and the process id are parameters, and no distribution of the suffix is claimed.
- The order of the names in the three lists of `compare`: they are sets here, sorted lists in the source.
- `FnBodies.FunctionsAreCutFromText`: texts are read as characters; the file system part of `read_at` is not modelled.
- `Sidecars.VerdictsPairOneRun`: index runs do not overlap each other, and every manifest write gets an identity never used before.
- `Sidecars.FreshIsChecked`: which keys are contained in the root is a parameter, as is the divergence git reports.
- `LspClient.Client.ReadResponse`: the clock is a bound on the turns of the loop, each of which may be the last; a failed write to the server ends the exchange, and the readiness wait of the handshake is left out.
- The two blocking writes of one message, between which a full queue can stall the exchange: liveness is not claimed.
- `LayoutBlock.LayoutPaths`: the search for the fenced block in the README is left out.
- `FindingIndex.IndexFile.UpsertIndexEntry`: the JSON text of the index and concurrent writers are left out.
- `AmbiguityPolicy.OrderInvariance`: strings are compared character by character; symbols are values, without identity beyond their name.
