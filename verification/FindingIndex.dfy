/** The per-run finding index of src/finding_index.rs and how the three finding stages merge into it. */
module FindingIndex {
  import opened Prelude

  datatype IndexEntry = IndexEntry(
    artifactPath: string,
    extractorVersion: string,
    orchestratorVersion: Option<string>,
    refinedAt: Option<string>,
    verifiedAt: Option<string>,
    verified: Option<bool>,
    stage2Path: Option<string>)

  datatype Index = Index(runId: string, startedAt: string, lastUpdatedAt: string, findings: map<string, IndexEntry>)

  datatype MergeMode = PreserveDownstream | PreserveStage2 | PreserveRefinedOnly | Replace

  function MergePreserveDownstream(existing: IndexEntry, entry: IndexEntry): IndexEntry {
    existing.(artifactPath := if existing.refinedAt.Some? then existing.artifactPath else entry.artifactPath,
              extractorVersion := entry.extractorVersion)
  }

  function MergePreserveStage2(existing: IndexEntry, entry: IndexEntry): IndexEntry {
    entry.(verifiedAt := existing.verifiedAt, verified := existing.verified, stage2Path := existing.stage2Path)
  }

  function MergePreserveRefinedOnly(existing: IndexEntry, entry: IndexEntry): IndexEntry {
    existing.(verifiedAt := entry.verifiedAt, verified := entry.verified, stage2Path := entry.stage2Path)
  }

  function MergeIndexEntry(existing: Option<IndexEntry>, entry: IndexEntry, mode: MergeMode): IndexEntry {
    if existing.None? then entry
    else
      match mode
      case Replace => entry
      case PreserveDownstream => MergePreserveDownstream(existing.value, entry)
      case PreserveStage2 => MergePreserveStage2(existing.value, entry)
      case PreserveRefinedOnly => MergePreserveRefinedOnly(existing.value, entry)
  }

  /** What each mode keeps of the existing entry; there is nothing to keep when there is none. */
  lemma ModesKeep(existing: IndexEntry, entry: IndexEntry, mode: MergeMode)
    ensures MergeIndexEntry(None, entry, mode) == MergeIndexEntry(Some(existing), entry, Replace) == entry
    ensures mode in {PreserveDownstream, PreserveStage2} ==>
              var m := MergeIndexEntry(Some(existing), entry, mode);
              m.verified == existing.verified && m.verifiedAt == existing.verifiedAt && m.stage2Path == existing.stage2Path
    ensures mode in {PreserveDownstream, PreserveRefinedOnly} ==>
              var m := MergeIndexEntry(Some(existing), entry, mode);
              m.refinedAt == existing.refinedAt && m.orchestratorVersion == existing.orchestratorVersion
  {
  }

  function Lookup(findings: map<string, IndexEntry>, id: string): Option<IndexEntry> {
    if id in findings then Some(findings[id]) else None
  }

  // ----- The stages -----

  /** A completed run of one stage on a finding, by a program of some extractor version. */
  datatype Stage =
    | Extract(id: string, version: string)
    | Refine(id: string, version: string, orchestrator: string, at: string)
    | Finalize(id: string, version: string, at: string, verified: bool)

  function ExtractedPath(id: string): string {
    "findings/" + id + "/stage-1.extracted.json"
  }

  function RefinedPath(id: string): string {
    "findings/" + id + "/stage-1.refined.json"
  }

  function VerifiedPath(id: string): string {
    "findings/" + id + "/stage-2.verified.json"
  }

  /** The entry a stage hands to the index. */
  function EntryOf(stage: Stage): IndexEntry {
    match stage
    case Extract(id, version) =>
      IndexEntry(ExtractedPath(id), version, None, None, None, None, None)
    case Refine(id, version, orchestrator, at) =>
      IndexEntry(RefinedPath(id), version, Some(orchestrator), Some(at), None, None, None)
    case Finalize(id, version, at, verified) =>
      IndexEntry("", version, None, None, Some(at), Some(verified), Some(VerifiedPath(id)))
  }

  function ModeOf(stage: Stage): MergeMode {
    match stage
    case Extract(_, _) => PreserveDownstream
    case Refine(_, _, _, _) => PreserveStage2
    case Finalize(_, _, _, _) => PreserveRefinedOnly
  }

  /** `index.json` of one run, absent before the first stage. */
  class IndexFile {
    var content: Option<Index>

    ghost function Findings(): map<string, IndexEntry>
      reads this
    {
      if content.Some? then content.value.findings else map[]
    }

    constructor ()
      ensures content == None
    {
      content := None;
    }

    /** Reads, merges and replaces the file; the read may find it unreadable and the write may fail, and
        then the file keeps its content. */
    method UpsertIndexEntry(runId: string, id: string, entry: IndexEntry, mode: MergeMode, now: string,
                            readable: bool, writable: bool)
      returns (r: Result<(), string>)
      modifies this
      ensures r.Ok? <==> (old(content).None? || readable) && writable
      ensures r.Err? ==> content == old(content)
      ensures r.Ok? ==>
        && content.Some? && content.value.lastUpdatedAt == now
        && content.value.runId == (if old(content).Some? then old(content).value.runId else runId)
        && content.value.startedAt == (if old(content).Some? then old(content).value.startedAt else now)
        && Findings() == old(Findings())[id := MergeIndexEntry(Lookup(old(Findings()), id), entry, mode)]
    {
      var idx;
      match content {
        case Some(existing) =>
          if !readable {
            return Err("parse index");
          }
          idx := existing;
        case None =>
          idx := Index(runId, now, now, map[]);
      }
      idx := idx.(lastUpdatedAt := now);
      var merged := MergeIndexEntry(Lookup(idx.findings, id), entry, mode);
      idx := idx.(findings := idx.findings[id := merged]);
      if !writable {
        return Err("write index");
      }
      content := Some(idx);
      r := Ok(());
    }

    /** What `persist_extract`, `persist_refined` and `upsert_verified_index` do to the index. */
    method Record(runId: string, stage: Stage, now: string, readable: bool, writable: bool)
      returns (r: Result<(), string>)
      modifies this
      ensures r.Err? ==> content == old(content)
      ensures r.Ok? ==> Findings() == After(old(Findings()), stage)
    {
      r := UpsertIndexEntry(runId, stage.id, EntryOf(stage), ModeOf(stage), now, readable, writable);
    }
  }

  // ----- Whole histories -----

  function After(findings: map<string, IndexEntry>, stage: Stage): map<string, IndexEntry> {
    findings[stage.id := MergeIndexEntry(Lookup(findings, stage.id), EntryOf(stage), ModeOf(stage))]
  }

  /** The entries after a history of stage runs on any findings, in any order. */
  function Run(history: seq<Stage>): map<string, IndexEntry> {
    if history == [] then map[] else After(Run(history[..|history| - 1]), history[|history| - 1])
  }

  type Test = Stage -> bool

  function Of(id: string): Test {
    (s: Stage) => s.id == id
  }

  function ExtractOf(id: string): Test {
    (s: Stage) => s.id == id && s.Extract?
  }

  function RefineOf(id: string): Test {
    (s: Stage) => s.id == id && s.Refine?
  }

  function FinalizeOf(id: string): Test {
    (s: Stage) => s.id == id && s.Finalize?
  }

  function ArtifactOf(id: string): Test {
    (s: Stage) => s.id == id && !s.Finalize?
  }

  /** The last stage of the history that passes the test. */
  function Last(history: seq<Stage>, test: Test): (r: Option<Stage>)
    ensures r.Some? ==> test(r.value)
  {
    if history == [] then None
    else if test(history[|history| - 1]) then Some(history[|history| - 1])
    else Last(history[..|history| - 1], test)
  }

  function First(history: seq<Stage>, test: Test): (r: Option<Stage>)
    ensures r.Some? ==> test(r.value)
    ensures r.None? <==> forall s :: s in history ==> !test(s)
  {
    if history == [] then None
    else
      var front, last := history[..|history| - 1], history[|history| - 1];
      assert history == front + [last];
      var r := First(front, test);
      if r.None? && test(last) then Some(last) else r
  }

  /** The entry made from the last stages of each kind; `first` is the first one of the finding. */
  function EntryFrom(id: string, first: Stage, extract: Option<Stage>, refine: Option<Stage>, finalize: Option<Stage>,
                     artifact: Option<Stage>): IndexEntry
    requires (refine.Some? ==> refine.value.Refine?) && (finalize.Some? ==> finalize.value.Finalize?)
  {
    IndexEntry(
      if refine.Some? then RefinedPath(id) else if extract.Some? then ExtractedPath(id) else "",
      if artifact.Some? then artifact.value.version else first.version,
      if refine.Some? then Some(refine.value.orchestrator) else None,
      if refine.Some? then Some(refine.value.at) else None,
      if finalize.Some? then Some(finalize.value.at) else None,
      if finalize.Some? then Some(finalize.value.verified) else None,
      if finalize.Some? then Some(VerifiedPath(id)) else None)
  }

  /** What the index owes a finding: each stage's fields from the last run of that stage, whatever ran
      since, and the best artifact there is. A finding that was only ever finalized has no artifact. */
  function Owed(history: seq<Stage>, id: string): IndexEntry
    requires First(history, Of(id)).Some?
  {
    EntryFrom(id, First(history, Of(id)).value, Last(history, ExtractOf(id)), Last(history, RefineOf(id)),
              Last(history, FinalizeOf(id)), Last(history, ArtifactOf(id)))
  }

  /** Before any stage of a finding ran, none was the last. */
  lemma {:induction false} NothingYet(history: seq<Stage>, id: string)
    requires forall s :: s in history ==> s.id != id
    ensures Last(history, ExtractOf(id)) == Last(history, RefineOf(id)) == None
    ensures Last(history, FinalizeOf(id)) == Last(history, ArtifactOf(id)) == None
  {
    if history != [] {
      var front := history[..|history| - 1];
      assert forall s :: s in front ==> s in history;
      NothingYet(front, id);
    }
  }

  /** What one more stage changes in what a finding is owed. */
  lemma OwedAfter(front: seq<Stage>, s: Stage, id: string)
    requires s.id == id
    ensures First(front + [s], Of(id)).Some?
    ensures Owed(front + [s], id) ==
            MergeIndexEntry(if First(front, Of(id)).Some? then Some(Owed(front, id)) else None, EntryOf(s), ModeOf(s))
  {
    LastAfter(front, s, ExtractOf(id));
    LastAfter(front, s, RefineOf(id));
    LastAfter(front, s, FinalizeOf(id));
    LastAfter(front, s, ArtifactOf(id));
    LastAfter(front, s, Of(id));
    if First(front, Of(id)).None? {
      NothingYet(front, id);
      hide Last, First, EntryFrom, EntryOf;
      FirstEntry(s);
    } else {
      hide Last, First, EntryFrom, EntryOf, MergeIndexEntry;
      MergedEntry(First(front, Of(id)).value, Last(front, ExtractOf(id)), Last(front, RefineOf(id)),
                  Last(front, FinalizeOf(id)), Last(front, ArtifactOf(id)), s);
    }
  }

  lemma FirstEntry(s: Stage)
    ensures EntryOf(s) ==
            EntryFrom(s.id, s, if s.Extract? then Some(s) else None, if s.Refine? then Some(s) else None,
                      if s.Finalize? then Some(s) else None, if s.Finalize? then None else Some(s))
  {
  }

  lemma MergedEntry(first: Stage, extract: Option<Stage>, refine: Option<Stage>, finalize: Option<Stage>,
                    artifact: Option<Stage>, s: Stage)
    requires (refine.Some? ==> refine.value.Refine?) && (finalize.Some? ==> finalize.value.Finalize?)
    ensures MergeIndexEntry(Some(EntryFrom(s.id, first, extract, refine, finalize, artifact)), EntryOf(s), ModeOf(s)) ==
            EntryFrom(s.id, first, if s.Extract? then Some(s) else extract, if s.Refine? then Some(s) else refine,
                      if s.Finalize? then Some(s) else finalize, if s.Finalize? then artifact else Some(s))
  {
  }

  lemma LastAfter(front: seq<Stage>, s: Stage, test: Test)
    ensures Last(front + [s], test) == if test(s) then Some(s) else Last(front, test)
    ensures First(front + [s], test) == if First(front, test).None? && test(s) then Some(s) else First(front, test)
  {
    var history := front + [s];
    assert history[..|history| - 1] == front && history[|history| - 1] == s;
  }

  /** After any history the index has exactly the findings some stage ran on, each with what it is owed. */
  lemma {:induction false} EachStageOwnsItsFields(history: seq<Stage>, id: string)
    ensures id in Run(history) <==> exists s :: s in history && s.id == id
    ensures id in Run(history) ==> First(history, Of(id)).Some? && Run(history)[id] == Owed(history, id)
  {
    if history != [] {
      var front, s := history[..|history| - 1], history[|history| - 1];
      assert history == front + [s];
      EachStageOwnsItsFields(front, id);
      if s.id == id {
        OwedAfter(front, s, id);
      }
    }
  }

  function Only(history: seq<Stage>, id: string): seq<Stage> {
    if history == [] then []
    else Only(history[..|history| - 1], id) + if history[|history| - 1].id == id then [history[|history| - 1]] else []
  }

  /** The stages of other findings, wherever they come in the history, leave no trace in an entry. */
  lemma {:induction false} OtherFindingsLeaveNoTrace(history: seq<Stage>, id: string)
    ensures Lookup(Run(history), id) == Lookup(Run(Only(history, id)), id)
  {
    if history != [] {
      var front, s := history[..|history| - 1], history[|history| - 1];
      OtherFindingsLeaveNoTrace(front, id);
      if s.id == id {
        assert (Only(front, id) + [s])[..|Only(front, id)|] == Only(front, id);
      } else {
        assert Only(history, id) == Only(front, id);
      }
    }
  }

  /** A finding that was finalized names its verified artifact, whatever ran since. */
  lemma FinalizedFindingHasVerdict(history: seq<Stage>, id: string)
    requires Last(history, FinalizeOf(id)).Some?
    ensures id in Run(history) && Run(history)[id].stage2Path == Some("findings/" + id + "/stage-2.verified.json")
    ensures Run(history)[id].verified == Some(Last(history, FinalizeOf(id)).value.verified)
    ensures Run(history)[id].verifiedAt == Some(Last(history, FinalizeOf(id)).value.at)
  {
    EachStageOwnsItsFields(history, id);
    if id !in Run(history) {
      NothingYet(history, id);
    }
  }

  /** Once a finding was extracted its entry names an artifact: the refined one once any refine ran. */
  lemma ExtractedFindingHasArtifact(history: seq<Stage>, id: string)
    requires Last(history, ExtractOf(id)).Some? || Last(history, RefineOf(id)).Some?
    ensures id in Run(history)
    ensures Run(history)[id].artifactPath ==
            "findings/" + id + if Last(history, RefineOf(id)).Some? then "/stage-1.refined.json" else "/stage-1.extracted.json"
  {
    EachStageOwnsItsFields(history, id);
    if id !in Run(history) {
      NothingYet(history, id);
    }
  }
}
