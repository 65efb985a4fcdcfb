/**
 * The validation gate of tools/gate/validator.py: each knowledge file is
 * parsed, checked against the schema and, when an engine root is given,
 * checked for evidence files that do not exist; the verdicts are collected
 * in a report keyed by record id.
 */
module Gate {
  import opened Wrappers
  import Files
  import opened Documents
  import opened Models

  /** ValidationStatus. */
  datatype Status = Verified | NeedsReview | Invalid | Stale

  function StatusName(s: Status): (r: string)
    ensures s == Verified <==> r == "verified"
  {
    match s
    case Verified => "verified"
    case NeedsReview => "needs_review"
    case Invalid => "invalid"
    case Stale => "stale"
  }

  /** One entry of `results`: `{"status": ..., "errors": [...]}`. */
  datatype ResultEntry = ResultEntry(status: Status, errors: seq<string>)

  /** `errors or []`. */
  function ErrorsOrEmpty(errors: Option<seq<string>>): (r: seq<string>)
    ensures errors.Some? ==> r == errors.value
    ensures errors.None? ==> r == []
  {
    if errors.Some? then errors.value else []
  }

  /** GateReport: two dictionaries keyed by record id. */
  class GateReport {
    var results: map<Value, ResultEntry>
    var statusMap: map<Value, Status>

    /** The two dictionaries have the same keys and agree on every status. */
    predicate Valid()
      reads this
    {
      && results.Keys == statusMap.Keys
      && forall k | k in results :: statusMap[k] == results[k].status
    }

    constructor()
      ensures results == map[] && statusMap == map[]
      ensures Valid()
    {
      results := map[];
      statusMap := map[];
    }

    /** add_result(lo_id, status, errors): a repeated id overwrites the
        earlier entry in both dictionaries. */
    method AddResult(loId: Value, status: Status, errors: Option<seq<string>>)
      requires Hashable(loId)
      modifies this
      ensures results == old(results)[loId := ResultEntry(status, ErrorsOrEmpty(errors))]
      ensures statusMap == old(statusMap)[loId := status]
      ensures old(Valid()) ==> Valid()
    {
      results := results[loId := ResultEntry(status, ErrorsOrEmpty(errors))];
      statusMap := statusMap[loId := status];
    }
  }

  // ---------------------------------------------------------------------
  // validate_lo_file
  // ---------------------------------------------------------------------

  /** The context a file is validated in: the engine tree, the engine root
      (absent when no root was given), whether evidence is skipped, and the
      rendering `str(e)` of a pydantic validation error. */
  datatype Gate = Gate(tree: Files.Tree, engineRoot: Option<string>, skipEvidence: bool,
                       render: SchemaError -> string)

  function MissingMessage(file: string): string {
    "Evidence file not found: " + file
  }

  /** The evidence-loop errors: one message per item whose file does not
      exist under `root`, in evidence order. */
  function MissingEvidence(tree: Files.Tree, root: string, evs: seq<EvidenceItem>): seq<string>
    decreases |evs|
  {
    if evs == [] then []
    else
      var ev := evs[|evs| - 1];
      MissingEvidence(tree, root, evs[..|evs| - 1])
        + (if Files.Exists(tree, Files.JoinPath(root, ev.file)) then [] else [MissingMessage(ev.file)])
  }

  /** What validate_lo_file returns for a file that loads as `loaded`, or None
      when it raises: a document that is not a mapping makes
      `LearningObject(**data)` raise a TypeError, which is not caught. */
  function FileVerdict(g: Gate, loaded: Loaded): Option<ResultEntry> {
    match loaded
    case ParseFailed(msg) => Some(ResultEntry(Status.Invalid, ["YAML Parse Error: " + msg]))
    case Parsed(doc) =>
      match Build(doc)
      case Failure(NotAKeywordMapping) => None
      case Failure(e) => Some(ResultEntry(Status.Invalid, ["Schema Error: " + g.render(e)]))
      case Success(lo) =>
        var errors := if g.engineRoot.Some? && !g.skipEvidence
                      then MissingEvidence(g.tree, g.engineRoot.value, lo.evidence) else [];
        if errors != [] then Some(ResultEntry(Status.Invalid, errors)) else Some(ResultEntry(Verified, []))
  }

  /** validate_lo_file(file_path, engine_root, skip_evidence), given what
      loading the file gives. */
  method ValidateLoFile(g: Gate, loaded: Loaded) returns (crashed: bool, status: Status, errors: seq<string>)
    ensures crashed <==> FileVerdict(g, loaded).None?
    ensures !crashed ==> FileVerdict(g, loaded) == Some(ResultEntry(status, errors))
  {
    crashed, status, errors := false, Status.Invalid, [];
    if loaded.ParseFailed? {
      errors := ["YAML Parse Error: " + loaded.message];
      return;
    }
    var lo;
    match Build(loaded.doc)
    case Failure(e) =>
      if e.NotAKeywordMapping? {
        crashed := true;
      } else {
        errors := ["Schema Error: " + g.render(e)];
      }
      return;
    case Success(x) =>
      lo := x;
    if g.engineRoot.Some? && !g.skipEvidence {
      errors := CheckEvidence(g.tree, g.engineRoot.value, lo.evidence);
    }
    if errors != [] {
      return;
    }
    status := Verified;
  }

  /** The evidence loop of validate_lo_file. */
  method CheckEvidence(tree: Files.Tree, root: string, evs: seq<EvidenceItem>) returns (errors: seq<string>)
    ensures errors == MissingEvidence(tree, root, evs)
  {
    errors := [];
    var i := 0;
    while i < |evs|
      invariant 0 <= i <= |evs|
      invariant errors == MissingEvidence(tree, root, evs[..i])
    {
      var ev := evs[i];
      assert evs[..i + 1][..i] == evs[..i];
      if !Files.Exists(tree, Files.JoinPath(root, ev.file)) {
        errors := errors + [MissingMessage(ev.file)];
      }
      i := i + 1;
    }
    assert evs[..i] == evs;
  }

  // ---------------------------------------------------------------------
  // Properties of a single verdict
  // ---------------------------------------------------------------------

  /** Validation raises exactly for a parsed document that is not a
      mapping (an empty file included). */
  lemma CrashesExactlyOnNonMapping(g: Gate, loaded: Loaded)
    ensures FileVerdict(g, loaded).None? <==> loaded.Parsed? && !loaded.doc.Mapping?
  {
  }

  /** The verdict is VERIFIED iff its error list is empty, and is never
      NEEDS_REVIEW or STALE. */
  lemma VerifiedIffNoErrors(g: Gate, loaded: Loaded)
    requires FileVerdict(g, loaded).Some?
    ensures var v := FileVerdict(g, loaded).value;
            && (v.status == Verified || v.status == Status.Invalid)
            && (v.status == Verified <==> v.errors == [])
  {
  }

  /** A parse failure gives INVALID with exactly the one parse message, and
      a schema failure INVALID with exactly the one schema message; neither
      looks at evidence. */
  lemma FailuresGiveOneMessage(g: Gate, loaded: Loaded)
    ensures loaded.ParseFailed? ==>
              FileVerdict(g, loaded) == Some(ResultEntry(Status.Invalid, ["YAML Parse Error: " + loaded.message]))
    ensures loaded.Parsed? && loaded.doc.Mapping? && !WellFormedDoc(loaded.doc) ==>
              Build(loaded.doc).Failure? && Build(loaded.doc).error.Invalid? &&
              FileVerdict(g, loaded) == Some(ResultEntry(Status.Invalid, ["Schema Error: " + g.render(Build(loaded.doc).error)]))
  {
  }

  /** Without an engine root, or with evidence skipped, every well-formed
      record is VERIFIED whatever its evidence says. */
  lemma NoRootNoEvidenceCheck(g: Gate, loaded: Loaded)
    requires g.engineRoot.None? || g.skipEvidence
    requires loaded.Parsed? && WellFormedDoc(loaded.doc)
    ensures FileVerdict(g, loaded) == Some(ResultEntry(Verified, []))
  {
  }

  /** The evidence errors name exactly the items whose files are missing:
      every message is for a missing file of the record, and every missing
      file has its message. */
  lemma {:induction false} MissingEvidenceExact(tree: Files.Tree, root: string, evs: seq<EvidenceItem>)
    ensures |MissingEvidence(tree, root, evs)| <= |evs|
    ensures forall m | m in MissingEvidence(tree, root, evs) ::
              exists ev | ev in evs :: m == MissingMessage(ev.file) && !Files.Exists(tree, Files.JoinPath(root, ev.file))
    ensures forall ev | ev in evs && !Files.Exists(tree, Files.JoinPath(root, ev.file)) ::
              MissingMessage(ev.file) in MissingEvidence(tree, root, evs)
    decreases |evs|
  {
    if evs != [] {
      var n := |evs| - 1;
      MissingEvidenceExact(tree, root, evs[..n]);
      assert evs == evs[..n] + [evs[n]];
      forall ev | ev in evs && !Files.Exists(tree, Files.JoinPath(root, ev.file))
        ensures MissingMessage(ev.file) in MissingEvidence(tree, root, evs)
      {
        if ev != evs[n] { assert ev in evs[..n]; }
      }
    }
  }

  /** With the evidence check on, a well-formed record is VERIFIED iff every
      evidence file exists. */
  lemma VerifiedIffEvidenceExists(g: Gate, loaded: Loaded)
    requires g.engineRoot.Some? && !g.skipEvidence
    requires loaded.Parsed? && WellFormedDoc(loaded.doc)
    ensures var lo := Build(loaded.doc).value;
            FileVerdict(g, loaded).value.status == Verified <==>
              forall ev | ev in lo.evidence :: Files.Exists(g.tree, Files.JoinPath(g.engineRoot.value, ev.file))
  {
    var lo := Build(loaded.doc).value;
    MissingEvidenceExact(g.tree, g.engineRoot.value, lo.evidence);
    if FileVerdict(g, loaded).value.status != Verified {
      var m := MissingEvidence(g.tree, g.engineRoot.value, lo.evidence)[0];
      assert m in MissingEvidence(g.tree, g.engineRoot.value, lo.evidence);
    }
  }

  // ---------------------------------------------------------------------
  // run_validation
  // ---------------------------------------------------------------------

  /** `Path(engine_root) if engine_root else None`. */
  function EnginePath(engineRoot: Option<string>): (r: Option<string>)
    ensures r.None? <==> engineRoot.None? || engineRoot.value == ""
    ensures r.Some? ==> r == engineRoot
  {
    if engineRoot.Some? && engineRoot.value != "" then engineRoot else None
  }

  /** The report key of a knowledge file: the `id` of its document, or the
      file name when the document has no `id` or does not load. */
  function ReportKey(e: WalkEntry): Value {
    if e.loaded.Parsed? && e.loaded.doc.Mapping? then GetOr(e.loaded.doc.entries, "id", Str(e.name))
    else Str(e.name)
  }

  /** A knowledge file on which the run raises: validation raises, or the
      key is a list or a mapping. */
  predicate RunCrashes(g: Gate, e: WalkEntry) {
    IsRecordFile(e.name) && (FileVerdict(g, e.loaded).None? || !Hashable(ReportKey(e)))
  }

  function RunCrashIndex(g: Gate, walk: seq<WalkEntry>): (r: nat)
    ensures r <= |walk|
    ensures forall j | 0 <= j < r :: !RunCrashes(g, walk[j])
    ensures r < |walk| ==> RunCrashes(g, walk[r])
  {
    if walk == [] then 0
    else if RunCrashes(g, walk[0]) then 0
    else 1 + RunCrashIndex(g, walk[1..])
  }

  /** `results` after the knowledge files of `walk`, none of which raises. */
  function ResultsOf(g: Gate, walk: seq<WalkEntry>): map<Value, ResultEntry>
    requires forall j | 0 <= j < |walk| :: !RunCrashes(g, walk[j])
    decreases |walk|
  {
    if walk == [] then map[]
    else
      var n := |walk| - 1;
      var e := walk[n];
      var front := ResultsOf(g, walk[..n]);
      assert !RunCrashes(g, e);
      if IsRecordFile(e.name) then front[ReportKey(e) := FileVerdict(g, e.loaded).value] else front
  }

  /** `status_map` after the same files. */
  function StatusOf(g: Gate, walk: seq<WalkEntry>): map<Value, Status>
    requires forall j | 0 <= j < |walk| :: !RunCrashes(g, walk[j])
    decreases |walk|
  {
    if walk == [] then map[]
    else
      var n := |walk| - 1;
      var e := walk[n];
      var front := StatusOf(g, walk[..n]);
      assert !RunCrashes(g, e);
      if IsRecordFile(e.name) then front[ReportKey(e) := FileVerdict(g, e.loaded).value.status] else front
  }

  /** run_validation(engine_root, no_capture) over the knowledge walk.  The
      report holds every file up to the first one on which the run raises;
      `crashed` says whether there was one (the report is then never
      saved). */
  method RunValidation(walk: seq<WalkEntry>, tree: Files.Tree, engineRoot: Option<string>, noCapture: bool,
                       render: SchemaError -> string)
    returns (report: GateReport, crashed: bool)
    ensures fresh(report) && report.Valid()
    ensures var g := Gate(tree, EnginePath(engineRoot), noCapture, render);
            var c := RunCrashIndex(g, walk);
            && (crashed <==> c < |walk|)
            && report.results == ResultsOf(g, walk[..c])
            && report.statusMap == StatusOf(g, walk[..c])
  {
    var g := Gate(tree, EnginePath(engineRoot), noCapture, render);
    report := new GateReport();
    crashed := false;
    var i := 0;
    while i < |walk|
      invariant 0 <= i <= RunCrashIndex(g, walk)
      invariant report.Valid()
      invariant report.results == ResultsOf(g, walk[..i])
      invariant report.statusMap == StatusOf(g, walk[..i])
    {
      var entry := walk[i];
      if IsRecordFile(entry.name) {
        var fileCrashed, loId, status, errors := ValidateEntry(g, entry);
        if fileCrashed {
          crashed := true;
          return;
        }
        report.AddResult(loId, status, Some(errors));
      }
      RunStep(g, walk, i);
      i := i + 1;
    }
    assert walk[..i] == walk[..RunCrashIndex(g, walk)];
  }

  /** The body of run_validation's loop for one knowledge file: its
      verdict and its report key, or whether the run raises on it. */
  method ValidateEntry(g: Gate, entry: WalkEntry) returns (crashed: bool, loId: Value, status: Status, errors: seq<string>)
    requires IsRecordFile(entry.name)
    ensures crashed <==> RunCrashes(g, entry)
    ensures !crashed ==> && loId == ReportKey(entry) && Hashable(loId)
                         && FileVerdict(g, entry.loaded) == Some(ResultEntry(status, errors))
  {
    crashed, status, errors := ValidateLoFile(g, entry.loaded);
    loId := Str(entry.name);
    if crashed {
      return;
    }
    if entry.loaded.Parsed? && entry.loaded.doc.Mapping? {
      loId := GetOr(entry.loaded.doc.entries, "id", Str(entry.name));
    }
    if !Hashable(loId) {
      crashed := true;
    }
  }

  /** One more file that does not raise updates both dictionaries under its
      key, or leaves them alone when it is not a knowledge file. */
  lemma RunStep(g: Gate, walk: seq<WalkEntry>, i: nat)
    requires i < |walk|
    requires forall j | 0 <= j <= i :: !RunCrashes(g, walk[j])
    ensures var e := walk[i];
            && ResultsOf(g, walk[..i + 1]) ==
                 (if IsRecordFile(e.name) then ResultsOf(g, walk[..i])[ReportKey(e) := FileVerdict(g, e.loaded).value]
                  else ResultsOf(g, walk[..i]))
            && StatusOf(g, walk[..i + 1]) ==
                 (if IsRecordFile(e.name) then StatusOf(g, walk[..i])[ReportKey(e) := FileVerdict(g, e.loaded).value.status]
                  else StatusOf(g, walk[..i]))
  {
    assert walk[..i + 1][..i] == walk[..i];
    assert forall j | 0 <= j < i + 1 :: walk[..i + 1][j] == walk[j];
  }

  // ---------------------------------------------------------------------
  // Properties of the report
  // ---------------------------------------------------------------------

  /** `status_map` has the keys of `results` and agrees with every one of
      its statuses. */
  lemma {:induction false} StatusAgreesWithResults(g: Gate, walk: seq<WalkEntry>)
    requires forall j | 0 <= j < |walk| :: !RunCrashes(g, walk[j])
    ensures StatusOf(g, walk).Keys == ResultsOf(g, walk).Keys
    ensures forall k | k in ResultsOf(g, walk) :: StatusOf(g, walk)[k] == ResultsOf(g, walk)[k].status
    decreases |walk|
  {
    if walk != [] {
      StatusAgreesWithResults(g, walk[..|walk| - 1]);
    }
  }

  /** The keys of the knowledge files of a walk. */
  function RecordKeys(walk: seq<WalkEntry>): set<Value> {
    set j | 0 <= j < |walk| && IsRecordFile(walk[j].name) :: ReportKey(walk[j])
  }

  lemma RecordKeysStep(walk: seq<WalkEntry>)
    requires walk != []
    ensures var n := |walk| - 1;
            RecordKeys(walk) == RecordKeys(walk[..n]) + (if IsRecordFile(walk[n].name) then {ReportKey(walk[n])} else {})
  {
    var n := |walk| - 1;
    forall k | k in RecordKeys(walk[..n]) ensures k in RecordKeys(walk) {
      var j :| 0 <= j < n && IsRecordFile(walk[..n][j].name) && ReportKey(walk[..n][j]) == k;
      assert walk[..n][j] == walk[j];
    }
    forall k | k in RecordKeys(walk) ensures k in RecordKeys(walk[..n]) || (IsRecordFile(walk[n].name) && k == ReportKey(walk[n])) {
      var j :| 0 <= j < |walk| && IsRecordFile(walk[j].name) && ReportKey(walk[j]) == k;
      if j < n { assert walk[..n][j] == walk[j]; }
    }
  }

  /** The report's keys are exactly the keys of the knowledge files: one
      `add_result` per `.yml`/`.yaml` file, none for other files. */
  lemma {:induction false} EveryRecordFileReported(g: Gate, walk: seq<WalkEntry>)
    requires forall j | 0 <= j < |walk| :: !RunCrashes(g, walk[j])
    ensures ResultsOf(g, walk).Keys == RecordKeys(walk)
    decreases |walk|
  {
    if walk != [] {
      var n := |walk| - 1;
      EveryRecordFileReported(g, walk[..n]);
      ResultKeysStep(g, walk);
      RecordKeysStep(walk);
    }
  }

  /** The last file of a walk adds its key, or nothing. */
  lemma ResultKeysStep(g: Gate, walk: seq<WalkEntry>)
    requires walk != []
    requires forall j | 0 <= j < |walk| :: !RunCrashes(g, walk[j])
    ensures var n := |walk| - 1;
            ResultsOf(g, walk).Keys ==
              ResultsOf(g, walk[..n]).Keys + (if IsRecordFile(walk[n].name) then {ReportKey(walk[n])} else {})
  {
  }

  /** A repeated key keeps the verdict of the last file that has it. */
  lemma {:induction false} LastFileWins(g: Gate, walk: seq<WalkEntry>, j: nat)
    requires forall i | 0 <= i < |walk| :: !RunCrashes(g, walk[i])
    requires j < |walk| && IsRecordFile(walk[j].name)
    requires forall i | j < i < |walk| :: !(IsRecordFile(walk[i].name) && ReportKey(walk[i]) == ReportKey(walk[j]))
    ensures ReportKey(walk[j]) in ResultsOf(g, walk)
    ensures ResultsOf(g, walk)[ReportKey(walk[j])] == FileVerdict(g, walk[j].loaded).value
    decreases |walk|
  {
    var n := |walk| - 1;
    if j < n {
      assert walk[..n][j] == walk[j];
      assert forall i | j < i < n :: walk[..n][i] == walk[i];
      LastFileWins(g, walk[..n], j);
    }
  }

  /** The key falls back to the file name when the file does not load or
      its document has no `id`; otherwise it is the document's `id`. */
  lemma KeyFallsBackToFileName(e: WalkEntry)
    ensures e.loaded.ParseFailed? ==> ReportKey(e) == Str(e.name)
    ensures e.loaded.Parsed? && e.loaded.doc.Mapping? && "id" !in e.loaded.doc.entries ==> ReportKey(e) == Str(e.name)
    ensures e.loaded.Parsed? && e.loaded.doc.Mapping? && "id" in e.loaded.doc.entries ==>
              ReportKey(e) == e.loaded.doc.entries["id"]
  {
  }

  /** run_gate's summary: how many records are VERIFIED, out of all.  The
      count and the number of records with any other status add up to the
      number of records. */
  function VerifiedCount(statusMap: map<Value, Status>): (r: nat)
    ensures r <= |statusMap|
    ensures r == |statusMap| <==> forall k | k in statusMap :: statusMap[k] == Verified
    ensures r + |set k | k in statusMap && statusMap[k] != Verified| == |statusMap|
  {
    var verified := set k | k in statusMap && statusMap[k] == Verified;
    var others := set k | k in statusMap && statusMap[k] != Verified;
    assert verified <= statusMap.Keys;
    assert |statusMap.Keys| == |statusMap|;
    assert statusMap.Keys == verified + others && verified * others == {};
    SubsetSize(verified, statusMap.Keys);
    |verified|
  }

  lemma {:induction false} SubsetSize<T>(a: set<T>, b: set<T>)
    requires a <= b
    ensures |a| <= |b|
    ensures |a| == |b| <==> a == b
  {
    if a != b {
      assert !(b <= a);
      var x :| x in b && x !in a;
      SubsetSize(a, b - {x});
    }
  }
}
