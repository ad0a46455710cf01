/** The pairing of `file_manifest.json` and `meta.json`: index runs write the manifest first and the
    meta last, and a reader trusts the two only when the meta names the manifest it loaded
    (src/graph_freshness.rs, src/indexing_handlers.rs, src/analyze_handlers.rs). */
module Sidecars {
  import opened Prelude

  /** Size and mtime of a manifest file. */
  datatype Identity = Identity(size: nat, mtimeNs: int)

  type RunId = nat

  /** A manifest on disk, and the index run that wrote it. */
  datatype Manifest = Manifest(identity: Identity, writer: RunId)

  /** A meta on disk: the manifest identity it records, and the index run that wrote it. */
  datatype Meta = Meta(manifest: Option<Identity>, writer: RunId)

  datatype Disk = Disk(manifest: Option<Manifest>, meta: Option<Meta>)

  // ----- Writing -----

  /** `write_graph_meta` records the identity of whatever manifest is there. */
  function RecordedIdentity(disk: Disk): Option<Identity> {
    match disk.manifest
    case None => None
    case Some(m) => Some(m.identity)
  }

  function WithManifest(disk: Disk, run: RunId, write: Option<Identity>): Disk {
    match write
    case None => disk
    case Some(id) => disk.(manifest := Some(Manifest(id, run)))
  }

  function WithMeta(disk: Disk, run: RunId, ok: bool): Disk {
    if ok then disk.(meta := Some(Meta(RecordedIdentity(disk), run))) else disk
  }

  /** What a full index leaves on disk: the meta is written also when the manifest was not. */
  function FullIndexDisk(disk: Disk, run: RunId, write: Option<Identity>, metaOk: bool): Disk {
    WithMeta(WithManifest(disk, run, write), run, metaOk)
  }

  /** What an analysis leaves: nothing new when its manifest could not be written. */
  function AnalyzeDisk(disk: Disk, run: RunId, write: Option<Identity>, metaOk: bool): Disk {
    if write.None? then disk else WithMeta(WithManifest(disk, run, write), run, metaOk)
  }

  /** The sidecars of one output directory, and the write order of the two full paths. A manifest write
      is given by the identity the file gets, None when it fails. */
  class OutputDir {
    var manifest: Option<Manifest>
    var meta: Option<Meta>
    /** The run whose coverage report is stored. */
    var coverage: Option<RunId>

    function View(): Disk
      reads this
    {
      Disk(manifest, meta)
    }

    method WriteFullManifest(run: RunId, write: Option<Identity>) returns (r: Result<(), string>)
      modifies this`manifest
      ensures View() == WithManifest(old(View()), run, write)
      ensures r.Err? <==> write.None?
    {
      if write.None? {
        return Err("manifest");
      }
      manifest := Some(Manifest(write.value, run));
      r := Ok(());
    }

    method WriteGraphMeta(run: RunId, ok: bool) returns (r: Result<(), string>)
      modifies this`meta
      ensures View() == WithMeta(old(View()), run, ok)
      ensures r.Err? <==> !ok
    {
      var recorded := if manifest.Some? then Some(manifest.value.identity) else None;
      if !ok {
        return Err("atomic_write");
      }
      meta := Some(Meta(recorded, run));
      r := Ok(());
    }

    method SaveCoverage(run: RunId, ok: bool) returns (r: Result<(), string>)
      modifies this`coverage
      ensures coverage == if ok then Some(run) else old(coverage)
      ensures r.Err? <==> !ok
    {
      if !ok {
        return Err("coverage");
      }
      coverage := Some(run);
      r := Ok(());
    }

    /** A full index carries on after a failed manifest, meta or coverage write. */
    method PersistFullIndexSidecars(run: RunId, write: Option<Identity>, metaOk: bool, coverageOk: bool)
      returns (metaErr: Option<string>)
      modifies this
      ensures View() == FullIndexDisk(old(View()), run, write, metaOk)
      ensures coverage == if coverageOk then Some(run) else old(coverage)
      ensures metaErr.Some? <==> !metaOk
    {
      var ignored := WriteFullManifest(run, write);
      var r := WriteGraphMeta(run, metaOk);
      metaErr := if r.Err? then Some(r.error) else None;
      ignored := SaveCoverage(run, coverageOk);
    }

    /** An analysis saves its coverage first and fails when that fails; it returns before the meta when the
        manifest write failed, and reports that beside its success. */
    method PersistAnalyzeSidecars(run: RunId, coverageOk: bool, write: Option<Identity>, metaOk: bool)
      returns (r: Result<Option<string>, string>)
      modifies this
      ensures coverage == if coverageOk then Some(run) else old(coverage)
      ensures View() == if coverageOk then AnalyzeDisk(old(View()), run, write, metaOk) else old(View())
      ensures r.Err? <==> !coverageOk
      ensures r.Ok? ==> (r.value.Some? <==> write.None? || !metaOk)
    {
      var saved := SaveCoverage(run, coverageOk);
      if saved.Err? {
        return Err(saved.error);
      }
      saved := WriteFullManifest(run, write);
      if saved.Err? {
        return Ok(Some(saved.error));
      }
      saved := WriteGraphMeta(run, metaOk);
      r := Ok(if saved.Err? then Some(saved.error) else None);
    }
  }

  // ----- Reading -----

  /** Absence of an identity is a failure to pair. */
  predicate DescribesManifest(meta: Meta, m: Manifest) {
    meta.manifest == Some(m.identity)
  }

  // ----- Interleavings -----

  datatype Kind = FullIndex | Incremental | Analyze

  /** Where an index run stands. */
  datatype Writer =
    | Idle
    | BeforeManifest(kind: Kind, run: RunId)
    | BeforeMeta(run: RunId)
    | MetaReady(run: RunId, recorded: Option<Identity>)

  /** Where a reader stands: it has read a meta and not yet the manifest. */
  datatype Reader = Resting | HasMeta(meta: Meta)

  datatype Verdict = Verdict(meta: Meta, manifest: Manifest)

  /** `written` remembers every manifest there ever was by its identity, `succeeded` the runs whose own
      manifest write succeeded, `verdicts` the pairs a verdict was computed from. */
  datatype World = World(disk: Disk, writer: Writer, reader: Reader, nextRun: RunId,
                         written: map<Identity, Manifest>, succeeded: set<RunId>, verdicts: seq<Verdict>)

  datatype Action =
    | Start(kind: Kind)
    | WriteManifest(write: Option<Identity>)
    | StatManifest
    | WriteMeta(ok: bool)
    | Stop
    | ReadMeta(gatesPass: bool)
    | LoadManifest

  /** Manifest writes get identities not seen before; the rest is program order. */
  predicate Enabled(w: World, a: Action) {
    match a
    case Start(_) => w.writer.Idle?
    case WriteManifest(write) => w.writer.BeforeManifest? && (write.Some? ==> write.value !in w.written)
    case StatManifest => w.writer.BeforeMeta?
    case WriteMeta(_) => w.writer.MetaReady?
    case Stop => true
    case ReadMeta(_) => w.reader.Resting?
    case LoadManifest => w.reader.HasMeta?
  }

  /** After a failed manifest write a full index goes on to the meta, an incremental one falls back to a
      full index, and an analysis is over. */
  function AfterFailedManifest(kind: Kind, run: RunId): Writer {
    match kind
    case FullIndex => BeforeMeta(run)
    case Incremental => BeforeManifest(FullIndex, run)
    case Analyze => Idle
  }

  function AfterManifest(w: World, kind: Kind, run: RunId, write: Option<Identity>): World {
    match write
    case None => w.(writer := AfterFailedManifest(kind, run))
    case Some(id) =>
      w.(disk := WithManifest(w.disk, run, write), writer := BeforeMeta(run),
         written := w.written[id := Manifest(id, run)], succeeded := w.succeeded + {run})
  }

  function AfterLoad(w: World): World
    requires w.reader.HasMeta?
  {
    var pairs := w.disk.manifest.Some? && DescribesManifest(w.reader.meta, w.disk.manifest.value);
    w.(reader := Resting,
       verdicts := if pairs then w.verdicts + [Verdict(w.reader.meta, w.disk.manifest.value)] else w.verdicts)
  }

  function Step(w: World, a: Action): World
    requires Enabled(w, a)
  {
    match a
    case Start(kind) => w.(writer := BeforeManifest(kind, w.nextRun), nextRun := w.nextRun + 1)
    case WriteManifest(write) => AfterManifest(w, w.writer.kind, w.writer.run, write)
    case StatManifest => w.(writer := MetaReady(w.writer.run, RecordedIdentity(w.disk)))
    case WriteMeta(ok) =>
      w.(writer := Idle,
         disk := if ok then w.disk.(meta := Some(Meta(w.writer.recorded, w.writer.run))) else w.disk)
    case Stop => w.(writer := Idle)
    case ReadMeta(gatesPass) =>
      if gatesPass && w.disk.meta.Some? then w.(reader := HasMeta(w.disk.meta.value)) else w
    case LoadManifest => AfterLoad(w)
  }

  predicate IsRun(w: World, run: seq<Action>)
    decreases |run|
  {
    run == [] || (Enabled(w, run[0]) && IsRun(Step(w, run[0]), run[1..]))
  }

  function Final(w: World, run: seq<Action>): World
    requires IsRun(w, run)
    decreases |run|
  {
    if run == [] then w else Final(Step(w, run[0]), run[1..])
  }

  /** An output directory as an older build may have left it: a manifest, and a meta that names none. */
  predicate IsStart(w: World) {
    && w.writer.Idle? && w.reader.Resting? && w.nextRun > 0 && w.succeeded == {} && w.verdicts == []
    && (w.disk.manifest.Some? ==> w.disk.manifest.value.writer == 0)
    && (w.disk.meta.Some? ==> w.disk.meta.value == Meta(None, 0))
    && w.written == (if w.disk.manifest.Some? then map[w.disk.manifest.value.identity := w.disk.manifest.value] else map[])
  }

  // ----- The invariant -----

  /** The meta names the manifest its own run wrote if that run wrote one, and another run's otherwise. */
  predicate NamesRightly(w: World, recorded: Option<Identity>, run: RunId) {
    recorded.Some? ==>
      recorded.value in w.written && (w.written[recorded.value].writer == run <==> run in w.succeeded)
  }

  /** The manifest on disk is the one this run wrote exactly if it wrote one. */
  predicate OwnsManifest(w: World, run: RunId) {
    && run < w.nextRun
    && (run in w.succeeded ==> w.disk.manifest.Some?)
    && (w.disk.manifest.Some? ==> (w.disk.manifest.value.writer == run <==> run in w.succeeded))
  }

  /** The run has ended, so what it managed to write is settled. */
  predicate Over(w: World, run: RunId) {
    run < w.nextRun && (w.writer.Idle? || w.writer.run != run)
  }

  predicate RightMeta(w: World, meta: Meta) {
    Over(w, meta.writer) && NamesRightly(w, meta.manifest, meta.writer)
  }

  /** A verdict pairs two sidecars of one run exactly when the run that wrote the meta wrote a manifest. */
  predicate RightVerdict(w: World, v: Verdict) {
    Over(w, v.meta.writer) && (v.manifest.writer == v.meta.writer <==> v.meta.writer in w.succeeded)
  }

  predicate WrittenOnce(w: World) {
    && (forall id :: id in w.written ==> w.written[id].identity == id && w.written[id].writer < w.nextRun)
    && (forall r :: r in w.succeeded ==> r < w.nextRun)
    && (w.disk.manifest.Some? ==> w.disk.manifest.value.identity in w.written
                                  && w.written[w.disk.manifest.value.identity] == w.disk.manifest.value)
  }

  predicate Consistent(w: World) {
    && WrittenOnce(w)
    && (w.disk.meta.Some? ==> RightMeta(w, w.disk.meta.value))
    && (w.reader.HasMeta? ==> RightMeta(w, w.reader.meta))
    && (forall v :: v in w.verdicts ==> RightVerdict(w, v))
    && (w.writer.Idle? || OwnsManifest(w, w.writer.run))
    && (w.writer.BeforeManifest? ==> w.writer.run !in w.succeeded)
    && (w.writer.MetaReady? ==> NamesRightly(w, w.writer.recorded, w.writer.run))
  }

  lemma StartIsConsistent(w: World)
    requires IsStart(w)
    ensures Consistent(w)
  {
  }

  /** A new manifest leaves the metas in circulation as they were: their runs are over and its identity
      is new. */
  lemma ManifestKeepsMeta(w: World, id: Identity, meta: Meta)
    requires w.writer.BeforeManifest? && id !in w.written && RightMeta(w, meta)
    ensures RightMeta(AfterManifest(w, w.writer.kind, w.writer.run, Some(id)), meta)
  {
  }

  lemma StepKeepsConsistent(w: World, a: Action)
    requires Consistent(w) && Enabled(w, a)
    ensures Consistent(Step(w, a))
  {
    var next := Step(w, a);
    match a {
      case WriteManifest(write) =>
        if write.Some? {
          if w.disk.meta.Some? {
            ManifestKeepsMeta(w, write.value, w.disk.meta.value);
          }
          if w.reader.HasMeta? {
            ManifestKeepsMeta(w, write.value, w.reader.meta);
          }
        }
      case LoadManifest =>
        forall v | v in next.verdicts
          ensures RightVerdict(next, v)
        {
          if v !in w.verdicts {
            assert v == Verdict(w.reader.meta, w.disk.manifest.value);
          }
        }
      case _ =>
    }
  }

  lemma {:induction false} RunKeepsConsistent(w: World, run: seq<Action>)
    requires Consistent(w) && IsRun(w, run)
    ensures Consistent(Final(w, run))
    decreases |run|
  {
    hide Consistent;
    if run != [] {
      StepKeepsConsistent(w, run[0]);
      RunKeepsConsistent(Step(w, run[0]), run[1..]);
    }
  }

  /** In every interleaving of a reader with index runs that may stop anywhere, a verdict is computed
      from a manifest and a meta of one and the same run, exactly when the run that wrote the meta had
      also succeeded in writing its manifest. */
  lemma VerdictsPairOneRun(start: World, run: seq<Action>, v: Verdict)
    requires IsStart(start) && IsRun(start, run) && v in Final(start, run).verdicts
    ensures v.manifest.writer == v.meta.writer <==> v.meta.writer in Final(start, run).succeeded
  {
    StartIsConsistent(start);
    RunKeepsConsistent(start, run);
  }

  // ----- An analysis never leaves the failing case, a full index can -----

  predicate FailsFullIndex(w: World, a: Action) {
    a == WriteManifest(None) && w.writer.BeforeManifest? && w.writer.kind == FullIndex
  }

  predicate NoFailedFullIndex(w: World, run: seq<Action>)
    requires IsRun(w, run)
    decreases |run|
  {
    run == [] || (!FailsFullIndex(w, run[0]) && NoFailedFullIndex(Step(w, run[0]), run[1..]))
  }

  /** Every meta that names a manifest comes from a run that wrote one. */
  predicate MetasBacked(w: World) {
    && (w.disk.meta.Some? && w.disk.meta.value.manifest.Some? ==> w.disk.meta.value.writer in w.succeeded)
    && (w.reader.HasMeta? && w.reader.meta.manifest.Some? ==> w.reader.meta.writer in w.succeeded)
    && (forall v :: v in w.verdicts ==> v.meta.writer in w.succeeded)
    && (w.writer.BeforeMeta? || w.writer.MetaReady? ==> w.writer.run in w.succeeded)
  }

  lemma {:induction false} NoFailureKeepsBacked(w: World, run: seq<Action>)
    requires MetasBacked(w) && IsRun(w, run) && NoFailedFullIndex(w, run)
    ensures MetasBacked(Final(w, run))
    decreases |run|
  {
    if run != [] {
      NoFailureKeepsBacked(Step(w, run[0]), run[1..]);
    }
  }

  /** As long as no full index fails to write its manifest, whatever analyses and incremental runs do and
      wherever any run stops, every verdict pairs two sidecars of one run. */
  lemma VerdictsAreSound(start: World, run: seq<Action>, v: Verdict)
    requires IsStart(start) && IsRun(start, run) && NoFailedFullIndex(start, run) && v in Final(start, run).verdicts
    ensures v.manifest.writer == v.meta.writer
  {
    VerdictsPairOneRun(start, run, v);
    NoFailureKeepsBacked(start, run);
  }

  /** An index run that nothing disturbs, its meta write succeeding, and a read after it. */
  function IndexRun(kind: Kind, write: Option<Identity>): seq<Action> {
    [Start(kind)] + ([WriteManifest(write)] + ([StatManifest] + ([WriteMeta(true)] + ([ReadMeta(true)] + [LoadManifest]))))
  }

  lemma OneStep(w: World, a: Action, rest: seq<Action>)
    requires Enabled(w, a) && IsRun(Step(w, a), rest)
    ensures IsRun(w, [a] + rest) && Final(w, [a] + rest) == Final(Step(w, a), rest)
  {
    assert ([a] + rest)[1..] == rest;
  }

  lemma IndexThenRead(w: World, kind: Kind, write: Option<Identity>)
    requires w.writer.Idle? && w.reader.Resting? && (write.Some? ==> write.value !in w.written)
    requires write.None? ==> kind == FullIndex
    ensures var disk := WithManifest(w.disk, w.nextRun, write);
            var meta := Meta(RecordedIdentity(disk), w.nextRun);
            && IsRun(w, IndexRun(kind, write))
            && Final(w, IndexRun(kind, write)).reader == Resting
            && Final(w, IndexRun(kind, write)).verdicts ==
               w.verdicts + if disk.manifest.Some? then [Verdict(meta, disk.manifest.value)] else []
  {
    hide IsRun, Final;
    var a := Step(w, Start(kind));
    var b := Step(a, WriteManifest(write));
    var c := Step(b, StatManifest);
    var d := Step(c, WriteMeta(true));
    var e := Step(d, ReadMeta(true));
    NoStep(Step(e, LoadManifest));
    OneStep(e, LoadManifest, []);
    assert [LoadManifest] + [] == [LoadManifest];
    OneStep(d, ReadMeta(true), [LoadManifest]);
    OneStep(c, WriteMeta(true), [ReadMeta(true)] + [LoadManifest]);
    OneStep(b, StatManifest, [WriteMeta(true)] + ([ReadMeta(true)] + [LoadManifest]));
    OneStep(a, WriteManifest(write), [StatManifest] + ([WriteMeta(true)] + ([ReadMeta(true)] + [LoadManifest])));
    OneStep(w, Start(kind), [WriteManifest(write)] + ([StatManifest] + ([WriteMeta(true)] + ([ReadMeta(true)] + [LoadManifest]))));
  }

  lemma NoStep(w: World)
    ensures IsRun(w, []) && Final(w, []) == w
  {
  }

  /** The steps of one index that nothing stops. */
  function WriterSteps(kind: Kind, write: Option<Identity>, metaOk: bool): seq<Action> {
    [Start(kind)] + ([WriteManifest(write)] +
    if kind.Analyze? && write.None? then [] else [StatManifest] + ([WriteMeta(metaOk)] + []))
  }

  /** An incremental index that cannot write its manifest goes on as a full one. */
  lemma FailedIncrementalIsFull(w: World, write: Option<Identity>, metaOk: bool)
    requires w.writer.Idle? && (write.Some? ==> write.value !in w.written)
    ensures var run := [Start(Incremental)] + ([WriteManifest(None)] + ([WriteManifest(write)] +
                         ([StatManifest] + ([WriteMeta(metaOk)] + []))));
            && IsRun(w, run) && Final(w, run).writer == Idle
            && Final(w, run).disk == FullIndexDisk(w.disk, w.nextRun, write, metaOk)
  {
    hide IsRun, Final;
    var a := Step(w, Start(Incremental));
    var b := Step(a, WriteManifest(None));
    var c := Step(b, WriteManifest(write));
    var d := Step(c, StatManifest);
    NoStep(Step(d, WriteMeta(metaOk)));
    OneStep(d, WriteMeta(metaOk), []);
    OneStep(c, StatManifest, [WriteMeta(metaOk)] + []);
    OneStep(b, WriteManifest(write), [StatManifest] + ([WriteMeta(metaOk)] + []));
    OneStep(a, WriteManifest(None), [WriteManifest(write)] + ([StatManifest] + ([WriteMeta(metaOk)] + [])));
    OneStep(w, Start(Incremental),
            [WriteManifest(None)] + ([WriteManifest(write)] + ([StatManifest] + ([WriteMeta(metaOk)] + []))));
  }

  /** An analysis that cannot save its coverage stops before it writes either sidecar. */
  lemma FailedCoverageStops(w: World)
    requires w.writer.Idle?
    ensures IsRun(w, [Start(Analyze)] + ([Stop] + []))
    ensures var final := Final(w, [Start(Analyze)] + ([Stop] + []));
            final.writer == Idle && final.disk == w.disk && final.reader == w.reader && final.verdicts == w.verdicts
  {
    hide IsRun, Final;
    var a := Step(w, Start(Analyze));
    NoStep(Step(a, Stop));
    OneStep(a, Stop, []);
    OneStep(w, Start(Analyze), [Stop] + []);
  }

  /** Step by step an index leaves the disk that `OutputDir` promises for it. */
  lemma StepsAreTheMethods(w: World, kind: Kind, write: Option<Identity>, metaOk: bool)
    requires w.writer.Idle? && !kind.Incremental? && (write.Some? ==> write.value !in w.written)
    ensures IsRun(w, WriterSteps(kind, write, metaOk))
    ensures var final := Final(w, WriterSteps(kind, write, metaOk));
            && final.writer == Idle && final.reader == w.reader && final.verdicts == w.verdicts
            && final.disk == (if kind.FullIndex? then FullIndexDisk(w.disk, w.nextRun, write, metaOk)
                              else AnalyzeDisk(w.disk, w.nextRun, write, metaOk))
  {
    hide IsRun, Final;
    var a := Step(w, Start(kind));
    var b := Step(a, WriteManifest(write));
    var rest := if kind.Analyze? && write.None? then [] else [StatManifest] + ([WriteMeta(metaOk)] + []);
    if kind.Analyze? && write.None? {
      NoStep(b);
    } else {
      var c := Step(b, StatManifest);
      NoStep(Step(c, WriteMeta(metaOk)));
      OneStep(c, WriteMeta(metaOk), []);
      OneStep(b, StatManifest, [WriteMeta(metaOk)] + []);
    }
    OneStep(a, WriteManifest(write), rest);
    OneStep(w, Start(kind), [WriteManifest(write)] + rest);
  }

  /** A full index that cannot write its manifest pairs the previous one with its own meta. */
  lemma FailedFullIndexPairsTwoRuns(w: World, previous: Manifest)
    requires w.writer.Idle? && w.reader.Resting? && w.disk.manifest == Some(previous) && previous.writer < w.nextRun
    ensures IsRun(w, IndexRun(FullIndex, None))
    ensures var final := Final(w, IndexRun(FullIndex, None));
            final.verdicts == w.verdicts + [Verdict(Meta(Some(previous.identity), w.nextRun), previous)]
  {
    IndexThenRead(w, FullIndex, None);
  }

  // ----- A completed run pairs -----

  lemma CompletedRunPairs(w: World, kind: Kind, id: Identity)
    requires w.writer.Idle? && w.reader.Resting? && id !in w.written
    ensures IsRun(w, IndexRun(kind, Some(id)))
    ensures Final(w, IndexRun(kind, Some(id))).verdicts ==
            w.verdicts + [Verdict(Meta(Some(id), w.nextRun), Manifest(id, w.nextRun))]
  {
    IndexThenRead(w, kind, Some(id));
  }

  // ----- The verdict itself -----

  datatype FileState = FileState(mtimeNs: int, size: nat)

  /** The state, the files looked at and those that differ, and how far HEAD is behind and ahead. */
  datatype Receipt =
    | Unknown
    | Checked(stale: bool, checkedFiles: nat, dirtyFiles: nat, commitsBehind: Option<nat>, commitsAhead: Option<nat>)

  /** Files whose recorded state is not the one on disk, or that cannot be looked at. */
  function CountDirty(files: map<string, FileState>, contained: string -> bool, stats: map<string, FileState>): nat {
    |set rel | rel in files && (!contained(rel) || rel !in stats || stats[rel] != files[rel])|
  }

  /** The receipt from the manifest's files and the divergence of HEAD, (ahead, behind). */
  function ReceiptFor(files: map<string, FileState>, contained: string -> bool, stats: map<string, FileState>,
                      divergence: Option<(nat, nat)>): Receipt
  {
    var headMoved := divergence.Some? && (divergence.value.0 > 0 || divergence.value.1 > 0);
    var dirty := CountDirty(files, contained, stats);
    if files == map[] && divergence == None then Unknown
    else
      Checked(dirty != 0 || headMoved, |files|, dirty,
              if divergence.Some? then Some(divergence.value.1) else None,
              if divergence.Some? then Some(divergence.value.0) else None)
  }

  /** The file is there, may be looked at, and is as it was indexed. */
  predicate AsIndexed(files: map<string, FileState>, contained: string -> bool, stats: map<string, FileState>, rel: string)
    requires rel in files
  {
    contained(rel) && rel in stats && stats[rel].mtimeNs == files[rel].mtimeNs && stats[rel].size == files[rel].size
  }

  lemma DirtyFiles(files: map<string, FileState>, contained: string -> bool, stats: map<string, FileState>,
                   changed: set<string>)
    requires forall rel :: rel in changed <==> rel in files && !AsIndexed(files, contained, stats, rel)
    ensures CountDirty(files, contained, stats) == |changed|
  {
    var dirty := set rel | rel in files && (!contained(rel) || rel !in stats || stats[rel] != files[rel]);
    assert dirty == changed;
  }

  /** Unknown means that there was nothing to check. Otherwise the receipt is stale if and only if some file is
      not as it was indexed or HEAD is not where it was, with the number of these files and HEAD's distances. */
  lemma ReceiptIsExact(files: map<string, FileState>, contained: string -> bool, stats: map<string, FileState>,
                       divergence: Option<(nat, nat)>, changed: set<string>)
    requires forall rel :: rel in changed <==> rel in files && !AsIndexed(files, contained, stats, rel)
    ensures var r := ReceiptFor(files, contained, stats, divergence);
            && (r.Unknown? <==> |files| == 0 && divergence.None?)
            && (r.Checked? ==>
                  && (r.stale <==> (exists rel :: rel in files && !AsIndexed(files, contained, stats, rel))
                                   || (divergence.Some? && divergence.value != (0, 0)))
                  && r.checkedFiles == |files.Keys| && r.dirtyFiles == |changed|
                  && (divergence.None? ==> r.commitsBehind == r.commitsAhead == None)
                  && (divergence.Some? ==>
                        divergence == Some((r.commitsAhead.value, r.commitsBehind.value))
                        && r.commitsAhead.Some? && r.commitsBehind.Some?))
  {
    DirtyFiles(files, contained, stats, changed);
    NoneChanged(files, contained, stats, changed);
    assert |files| == 0 <==> files == map[];
    hide CountDirty, AsIndexed;
  }

  lemma NoneChanged(files: map<string, FileState>, contained: string -> bool, stats: map<string, FileState>,
                    changed: set<string>)
    requires forall rel :: rel in changed <==> rel in files && !AsIndexed(files, contained, stats, rel)
    ensures |changed| == 0 <==> forall rel :: rel in files ==> AsIndexed(files, contained, stats, rel)
    ensures |files| == |files.Keys|
  {
    hide AsIndexed;
    if changed != {} {
      var rel :| rel in changed;
    }
  }

  /** Fresh means that something was checked and everything checked is as it was indexed. */
  lemma FreshIsChecked(files: map<string, FileState>, contained: string -> bool, stats: map<string, FileState>,
                       divergence: Option<(nat, nat)>)
    ensures var r := ReceiptFor(files, contained, stats, divergence);
            r.Checked? && !r.stale <==>
            && (files != map[] || divergence.Some?)
            && (divergence.Some? ==> divergence.value == (0, 0))
            && (forall rel :: rel in files ==> contained(rel) && rel in stats && stats[rel] == files[rel])
  {
    var changed := set rel | rel in files && !AsIndexed(files, contained, stats, rel);
    ReceiptIsExact(files, contained, stats, divergence, changed);
    forall rel | rel in files
      ensures AsIndexed(files, contained, stats, rel) <==> contained(rel) && rel in stats && stats[rel] == files[rel]
    {
    }
  }
}
