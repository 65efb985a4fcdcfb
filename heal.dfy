/**
 * The heal pass of tools/freshness/cmd.py (`run_heal`): every evidence item
 * of every schema-valid knowledge record is re-extracted from the engine
 * tree, re-hashed and compared with the hash the record stores.  A match is
 * VERIFIED, a mismatch FLAGGED; each item leaves one JSON file in the audit
 * directory, and an item whose extraction fails leaves an error file instead
 * without stopping the batch.
 */
module Heal {
  import opened Wrappers
  import Files
  import opened Documents
  import opened Models
  import Freshness

  /** The window size `run_heal` extracts with (the default of
      `extract_snippet_window`). */
  const ContextLines := 40

  /** The fixed `reason` of every audit entry. */
  const Reason := "Normalized hash comparison"

  datatype Action = Verified | Flagged

  function ActionName(a: Action): string {
    match a
    case Verified => "VERIFIED"
    case Flagged => "FLAGGED"
  }

  /** What `datetime.now()` gives when one item is logged: its ISO rendering
      for the entry and its `%Y%m%d_%H%M%S` rendering for the file name. */
  datatype Moment = Moment(iso: string, compact: string)

  /** The JSON documents the pass writes. */
  datatype AuditDoc =
    | Entry(timestamp: string, loId: string, symbol: string, file: string,
            oldHash: string, newHash: string, action: Action, reason: string)
    | ErrorDoc(error: string, loId: string)

  /** One file written into the audit directory. */
  datatype Write = Write(name: string, doc: AuditDoc)

  /** The audit directory: file name to content. */
  type AuditDir = map<string, AuditDoc>

  /** The engine side of the pass: the engine tree, the engine root and the
      SHA-256 hex digest of a string. */
  datatype Env = Env(tree: Files.Tree, engineRoot: string, sha256: string -> string)

  /** One evidence item of one record. */
  datatype Check = Check(lo: LearningObject, ev: EvidenceItem)

  // ---------------------------------------------------------------------
  // Which records are checked
  // ---------------------------------------------------------------------

  /** A knowledge file whose YAML does not parse: the load is not guarded,
      so the whole pass stops there with the exception. */
  predicate Crashes(e: WalkEntry) {
    IsRecordFile(e.name) && e.loaded.ParseFailed?
  }

  /** The position of the first crashing entry, or the length of the walk. */
  function CrashIndex(walk: seq<WalkEntry>): (r: nat)
    ensures r <= |walk|
    ensures forall j | 0 <= j < r :: !Crashes(walk[j])
    ensures r < |walk| ==> Crashes(walk[r])
  {
    if walk == [] then 0
    else if Crashes(walk[0]) then 0
    else 1 + CrashIndex(walk[1..])
  }

  /** The record a walk entry contributes: a parsed knowledge file that the
      schema accepts.  Anything the schema refuses is skipped. */
  function RecordOf(e: WalkEntry): (r: Option<LearningObject>)
    ensures r.Some? <==> IsRecordFile(e.name) && e.loaded.Parsed? && WellFormedDoc(e.loaded.doc)
    ensures r.Some? ==> Build(e.loaded.doc) == Success(r.value)
  {
    if IsRecordFile(e.name) && e.loaded.Parsed? then
      match Build(e.loaded.doc)
      case Success(lo) => Some(lo)
      case Failure(_) => None
    else None
  }

  /** The records of a walk, in walk order. */
  function Records(walk: seq<WalkEntry>): seq<LearningObject>
    decreases |walk|
  {
    if walk == [] then []
    else
      var last := RecordOf(walk[|walk| - 1]);
      Records(walk[..|walk| - 1]) + (if last.Some? then [last.value] else [])
  }

  /** The evidence items of one record, in order. */
  function ChecksOf(lo: LearningObject): (r: seq<Check>)
    ensures |r| == |lo.evidence|
    ensures forall j | 0 <= j < |r| :: r[j] == Check(lo, lo.evidence[j])
  {
    seq(|lo.evidence|, j requires 0 <= j < |lo.evidence| => Check(lo, lo.evidence[j]))
  }

  /** All evidence items of the records, record by record. */
  function Checks(los: seq<LearningObject>): seq<Check>
    decreases |los|
  {
    if los == [] then [] else Checks(los[..|los| - 1]) + ChecksOf(los[|los| - 1])
  }

  /** The number of evidence items of the records: a reference count. */
  function EvidenceTotal(los: seq<LearningObject>): nat
    decreases |los|
  {
    if los == [] then 0 else |los[0].evidence| + EvidenceTotal(los[1..])
  }

  // ---------------------------------------------------------------------
  // One item
  // ---------------------------------------------------------------------

  /** The recomputed hash of an item, or the message of the exception its
      extraction raises. */
  function Outcome(env: Env, c: Check): (r: Result<string, string>)
  {
    match Freshness.ExtractSnippetWindow(env.tree, Files.JoinPath(env.engineRoot, c.ev.file), c.ev.symbol, ContextLines)
    case Failure(e) => Failure(Freshness.ErrorMessage(e))
    case Success(snippet) => Success(Freshness.ComputeHash(env.sha256, snippet))
  }

  /** The audit file an item leaves, logged at moment `m`. */
  function WriteFor(env: Env, c: Check, m: Moment): Write {
    match Outcome(env, c)
    case Success(h) =>
      var action := if h == c.ev.snippetHash then Verified else Flagged;
      Write(m.compact + "_" + c.lo.id + ".json",
            Entry(m.iso, c.lo.id, c.ev.symbol, c.ev.file, c.ev.snippetHash, h, action, Reason))
    case Failure(msg) =>
      Write("error_" + c.lo.id + ".json", ErrorDoc(msg, c.lo.id))
  }

  /** The files written for a run of items; item `k` is logged at `clock(k)`. */
  function Writes(env: Env, clock: nat -> Moment, cs: seq<Check>): (r: seq<Write>)
    ensures |r| == |cs|
  {
    seq(|cs|, k requires 0 <= k < |cs| => WriteFor(env, cs[k], clock(k)))
  }

  predicate IsFlagged(w: Write) {
    w.doc.Entry? && w.doc.action == Flagged
  }

  /** How many of the writes are FLAGGED entries. */
  function FlaggedCount(ws: seq<Write>): nat
    decreases |ws|
  {
    if ws == [] then 0
    else FlaggedCount(ws[..|ws| - 1]) + (if IsFlagged(ws[|ws| - 1]) then 1 else 0)
  }

  /** The audit directory after the writes, in order. */
  function Apply(dir: AuditDir, ws: seq<Write>): AuditDir
    decreases |ws|
  {
    if ws == [] then dir
    else Apply(dir, ws[..|ws| - 1])[ws[|ws| - 1].name := ws[|ws| - 1].doc]
  }

  // ---------------------------------------------------------------------
  // run_heal
  // ---------------------------------------------------------------------

  /** The body of the `try` for one item: extract, hash, classify, and the
      audit file that results; an exception becomes the error file. */
  method LogItem(env: Env, lo: LearningObject, ev: EvidenceItem, now: Moment)
    returns (w: Write, flagged: bool)
    ensures w == WriteFor(env, Check(lo, ev), now)
    ensures flagged == IsFlagged(w)
  {
    match Outcome(env, Check(lo, ev))
    case Success(currentHash) =>
      var action := Flagged;
      if currentHash == ev.snippetHash {
        action := Verified;
      }
      flagged := action == Flagged;
      w := Write(now.compact + "_" + lo.id + ".json",
                 Entry(now.iso, lo.id, ev.symbol, ev.file, ev.snippetHash, currentHash, action, Reason));
    case Failure(msg) =>
      flagged := false;
      w := Write("error_" + lo.id + ".json", ErrorDoc(msg, lo.id));
  }

  /** Logging one more item extends the log, the count and the directory. */
  lemma LogStep(env: Env, clock: nat -> Moment, cs: seq<Check>, c: Check, dir: AuditDir, w: Write)
    requires w == WriteFor(env, c, clock(|cs|))
    ensures Writes(env, clock, cs + [c]) == Writes(env, clock, cs) + [w]
    ensures FlaggedCount(Writes(env, clock, cs) + [w]) ==
              FlaggedCount(Writes(env, clock, cs)) + (if IsFlagged(w) then 1 else 0)
    ensures Apply(dir, Writes(env, clock, cs) + [w]) == Apply(dir, Writes(env, clock, cs))[w.name := w.doc]
  {
    var ws := Writes(env, clock, cs);
    assert (ws + [w])[..|ws|] == ws;
  }

  /** The inner loop of `run_heal`: every evidence item of `lo`, in order,
      appended to the log and applied to the audit directory. */
  method CheckRecord(env: Env, clock: nat -> Moment, lo: LearningObject, ghost before: seq<Check>,
                     writes0: seq<Write>, reviewCount0: nat, audit0: AuditDir, ghost dir: AuditDir)
    returns (writes: seq<Write>, reviewCount: nat, audit: AuditDir)
    requires writes0 == Writes(env, clock, before)
    requires reviewCount0 == FlaggedCount(writes0)
    requires audit0 == Apply(dir, writes0)
    ensures writes == Writes(env, clock, before + ChecksOf(lo))
    ensures reviewCount == FlaggedCount(writes)
    ensures audit == Apply(dir, writes)
  {
    writes, reviewCount, audit := writes0, reviewCount0, audit0;
    var j := 0;
    while j < |lo.evidence|
      invariant 0 <= j <= |lo.evidence|
      invariant writes == Writes(env, clock, before + ChecksOf(lo)[..j])
      invariant reviewCount == FlaggedCount(writes)
      invariant audit == Apply(dir, writes)
    {
      var ev := lo.evidence[j];
      var w, flagged := LogItem(env, lo, ev, clock(|writes|));
      if flagged {
        reviewCount := reviewCount + 1;
      }
      ghost var cs := before + ChecksOf(lo)[..j];
      assert before + ChecksOf(lo)[..j + 1] == cs + [Check(lo, ev)] by {
        assert ChecksOf(lo)[..j + 1] == ChecksOf(lo)[..j] + [Check(lo, ev)];
      }
      LogStep(env, clock, cs, Check(lo, ev), dir, w);
      writes := writes + [w];
      audit := audit[w.name := w.doc];
      j := j + 1;
    }
    assert ChecksOf(lo)[..j] == ChecksOf(lo);
  }

  /** run_heal(engine_root, from_sha, to_sha) over the knowledge walk `walk`,
      starting from the audit directory `audit0`.  Returns the number of
      records checked, the number of items flagged, the audit files written
      in order, the final audit directory, and whether an unparsable
      knowledge file ended the run.  `fromSha` and `toSha` are only
      printed. */
  method RunHeal(walk: seq<WalkEntry>, env: Env, clock: nat -> Moment, audit0: AuditDir,
                 fromSha: string, toSha: string)
    returns (loChecked: nat, reviewCount: nat, writes: seq<Write>, audit: AuditDir, crashed: bool)
    ensures crashed <==> CrashIndex(walk) < |walk|
    ensures loChecked == |Records(walk[..CrashIndex(walk)])|
    ensures writes == Writes(env, clock, Checks(Records(walk[..CrashIndex(walk)])))
    ensures reviewCount == FlaggedCount(writes)
    ensures audit == Apply(audit0, writes)
  {
    loChecked, reviewCount, writes, audit, crashed := 0, 0, [], audit0, false;
    ghost var los: seq<LearningObject> := [];
    var i := 0;
    while i < |walk|
      invariant 0 <= i <= CrashIndex(walk)
      invariant los == Records(walk[..i])
      invariant loChecked == |los|
      invariant writes == Writes(env, clock, Checks(los))
      invariant reviewCount == FlaggedCount(writes)
      invariant audit == Apply(audit0, writes)
    {
      var entry := walk[i];
      RecordsStep(walk, i);
      if IsRecordFile(entry.name) {
        if entry.loaded.ParseFailed? {
          crashed := true;
          return;
        }
        match Build(entry.loaded.doc)
        case Failure(_) =>
        case Success(lo) =>
          loChecked := loChecked + 1;
          writes, reviewCount, audit := CheckRecord(env, clock, lo, Checks(los), writes, reviewCount, audit, audit0);
          ChecksStep(los, lo);
          los := los + [lo];
      }
      i := i + 1;
    }
  }

  lemma RecordsStep(walk: seq<WalkEntry>, i: nat)
    requires i < |walk|
    ensures Records(walk[..i + 1]) ==
              Records(walk[..i]) + (if RecordOf(walk[i]).Some? then [RecordOf(walk[i]).value] else [])
  {
    assert walk[..i + 1][..i] == walk[..i];
  }

  lemma ChecksStep(los: seq<LearningObject>, lo: LearningObject)
    ensures Checks(los + [lo]) == Checks(los) + ChecksOf(lo)
  {
    assert (los + [lo])[..|los|] == los;
  }

  // ---------------------------------------------------------------------
  // Properties
  // ---------------------------------------------------------------------

  /** An item is logged as an entry exactly when its snippet can be
      extracted; the entry keeps the stored hash as `old_hash` and the
      recomputed one as `new_hash`, and is VERIFIED iff the two are equal,
      FLAGGED otherwise.  An item whose extraction fails leaves the
      exception's message in `error_<id>.json`. */
  lemma ItemClassification(env: Env, c: Check, m: Moment)
    ensures var w := WriteFor(env, c, m);
            var path := Files.JoinPath(env.engineRoot, c.ev.file);
            var x := Freshness.ExtractSnippetWindow(env.tree, path, c.ev.symbol, ContextLines);
            && (w.doc.Entry? <==> x.Success?)
            && (x.Success? ==>
                  var h := Freshness.ComputeHash(env.sha256, x.value);
                  && w.name == m.compact + "_" + c.lo.id + ".json"
                  && w.doc.oldHash == c.ev.snippetHash && w.doc.newHash == h
                  && w.doc.loId == c.lo.id && w.doc.symbol == c.ev.symbol && w.doc.file == c.ev.file
                  && w.doc.timestamp == m.iso && w.doc.reason == Reason
                  && (w.doc.action == Verified <==> h == c.ev.snippetHash)
                  && (w.doc.action == Flagged <==> h != c.ev.snippetHash))
            && (x.Failure? ==>
                  w == Write("error_" + c.lo.id + ".json", ErrorDoc(Freshness.ErrorMessage(x.error), c.lo.id)))
  {
  }

  /** Formatting-only drift is invisible: when the snippet extracted from two
      engine trees normalises to the same text, the item is classified and
      logged identically. */
  lemma MechanicalDriftInvisible(env1: Env, env2: Env, c: Check, m: Moment)
    requires env1.sha256 == env2.sha256
    requires var x1 := Freshness.ExtractSnippetWindow(env1.tree, Files.JoinPath(env1.engineRoot, c.ev.file), c.ev.symbol, ContextLines);
             var x2 := Freshness.ExtractSnippetWindow(env2.tree, Files.JoinPath(env2.engineRoot, c.ev.file), c.ev.symbol, ContextLines);
             x1.Success? && x2.Success? && Freshness.Normalize(x1.value) == Freshness.Normalize(x2.value)
    ensures WriteFor(env1, c, m) == WriteFor(env2, c, m)
  {
  }

  /** Every item of every checked record is logged exactly once, failing or
      not, so the number of writes is the total evidence count. */
  lemma {:induction false} EveryItemLogged(los: seq<LearningObject>)
    ensures |Checks(los)| == EvidenceTotal(los)
    decreases |los|
  {
    if los != [] {
      EveryItemLogged(los[..|los| - 1]);
      EvidenceTotalAppend(los[..|los| - 1], los[|los| - 1]);
      assert los[..|los| - 1] + [los[|los| - 1]] == los;
    }
  }

  lemma {:induction false} EvidenceTotalAppend(los: seq<LearningObject>, lo: LearningObject)
    ensures EvidenceTotal(los + [lo]) == EvidenceTotal(los) + |lo.evidence|
    decreases |los|
  {
    if los != [] {
      assert (los + [lo])[1..] == los[1..] + [lo];
      EvidenceTotalAppend(los[1..], lo);
    } else {
      assert [lo][1..] == [];
    }
  }

  /** The indices of the FLAGGED writes: an independent description of what
      `review_count` counts. */
  function FlaggedIndices(ws: seq<Write>): set<nat> {
    set k: nat | k < |ws| && IsFlagged(ws[k])
  }

  /** `review_count` rises by exactly one per FLAGGED item. */
  lemma {:induction false} ReviewCountIsFlaggedItems(ws: seq<Write>)
    ensures FlaggedCount(ws) == |FlaggedIndices(ws)|
    ensures FlaggedCount(ws) <= |ws|
    decreases |ws|
  {
    if ws != [] {
      var n := |ws| - 1;
      var front := ws[..n];
      ReviewCountIsFlaggedItems(front);
      if IsFlagged(ws[n]) {
        assert FlaggedIndices(ws) == FlaggedIndices(front) + {n};
      } else {
        assert FlaggedIndices(ws) == FlaggedIndices(front);
      }
    }
  }

  /** No error file or VERIFIED entry is counted for review. */
  lemma {:induction false} ReviewCountExcludesOthers(ws: seq<Write>)
    requires forall k | 0 <= k < |ws| :: !IsFlagged(ws[k])
    ensures FlaggedCount(ws) == 0
    decreases |ws|
  {
    if ws != [] { ReviewCountExcludesOthers(ws[..|ws| - 1]); }
  }

  /** A name no write uses keeps what the audit directory held before. */
  lemma {:induction false} AuditUntouched(dir: AuditDir, ws: seq<Write>, name: string)
    requires forall k | 0 <= k < |ws| :: ws[k].name != name
    ensures name in Apply(dir, ws) <==> name in dir
    ensures name in dir ==> Apply(dir, ws)[name] == dir[name]
    decreases |ws|
  {
    if ws != [] {
      var n := |ws| - 1;
      assert forall k | 0 <= k < n :: ws[..n][k] == ws[k];
      AuditUntouched(dir, ws[..n], name);
    }
  }

  /** The audit directory holds, under each name, the last file written
      under it: a later write replaces an earlier one. */
  lemma {:induction false} AuditLastWriteWins(dir: AuditDir, ws: seq<Write>, k: nat)
    requires k < |ws|
    requires forall k' | k < k' < |ws| :: ws[k'].name != ws[k].name
    ensures ws[k].name in Apply(dir, ws) && Apply(dir, ws)[ws[k].name] == ws[k].doc
    decreases |ws|
  {
    var n := |ws| - 1;
    if k < n {
      assert ws[..n][k] == ws[k];
      assert forall k' | k < k' < n :: ws[..n][k'] == ws[k'];
      AuditLastWriteWins(dir, ws[..n], k);
    }
  }

  /** Two items of one record logged within the same second write the same
      file name, so the later one replaces the earlier in the audit
      directory; likewise every failing item of a record shares
      `error_<id>.json`. */
  lemma SameSecondSameFile(env: Env, c1: Check, c2: Check, m1: Moment, m2: Moment)
    requires c1.lo.id == c2.lo.id
    ensures Outcome(env, c1).Success? && Outcome(env, c2).Success? && m1.compact == m2.compact ==>
              WriteFor(env, c1, m1).name == WriteFor(env, c2, m2).name
    ensures Outcome(env, c1).Failure? && Outcome(env, c2).Failure? ==>
              WriteFor(env, c1, m1).name == WriteFor(env, c2, m2).name
  {
  }

  /** The pass skips only what the schema refuses: a parsed knowledge file
      is checked iff it is well formed, and its items are checked with the
      record's own evidence. */
  lemma RecordsAreTheWellFormedFiles(walk: seq<WalkEntry>, lo: LearningObject)
    ensures lo in Records(walk) <==>
              exists j | 0 <= j < |walk| :: RecordOf(walk[j]) == Some(lo)
  {
    if lo in Records(walk) {
      var j := RecordInRecords(walk, lo);
    }
    if j :| 0 <= j < |walk| && RecordOf(walk[j]) == Some(lo) {
      RecordFileIsRecorded(walk, j, lo);
    }
  }

  /** Every record comes from some file of the walk. */
  lemma {:induction false} RecordInRecords(walk: seq<WalkEntry>, lo: LearningObject) returns (j: nat)
    requires lo in Records(walk)
    ensures j < |walk| && RecordOf(walk[j]) == Some(lo)
    decreases |walk|
  {
    var n := |walk| - 1;
    var front := walk[..n];
    var last := RecordOf(walk[n]);
    assert Records(walk) == Records(front) + (if last.Some? then [last.value] else []);
    if lo in Records(front) {
      j := RecordInRecords(front, lo);
      assert front[j] == walk[j];
    } else {
      j := n;
    }
  }

  /** Every file that builds a record is recorded. */
  lemma {:induction false} RecordFileIsRecorded(walk: seq<WalkEntry>, j: nat, lo: LearningObject)
    requires j < |walk| && RecordOf(walk[j]) == Some(lo)
    ensures lo in Records(walk)
    decreases |walk|
  {
    var n := |walk| - 1;
    var front := walk[..n];
    var last := RecordOf(walk[n]);
    assert Records(walk) == Records(front) + (if last.Some? then [last.value] else []);
    if j < n {
      assert front[j] == walk[j];
      RecordFileIsRecorded(front, j, lo);
    }
  }
}
