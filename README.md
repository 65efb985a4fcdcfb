# Unreal Knowledge Engine — a Dafny model of its core

The Unreal Knowledge Engine keeps a library of *learning objects*. These are
YAML records under `knowledge/learning_objects/`. Each record describes one
concept of the Unreal Engine source and cites *evidence*: a file, a symbol
in it, and a SHA-256 hash of a normalised snippet around that symbol. The
project models the five tools that keep that library honest:

- **freshness** (`wrappers.dfy`, `strings.dfy`, `files.dfy`, `freshness.dfy`, `heal.dfy`):
  - the snippet normaliser, which drops `//` comments, then `/* */`
    comments, then all whitespace;
  - the hash over the normalised text;
  - the windowed snippet extraction around the first occurrence of a symbol;
  - the `heal` pass. It re-extracts every evidence item, classifies it as
    VERIFIED or FLAGGED, and writes one audit JSON per item.
- **gate** (`models.dfy`, `gate.dfy`):
  - the record schema (the pydantic models);
  - the per-file validation, which gives VERIFIED or INVALID plus its
    messages;
  - the `GateReport` object;
  - the directory pass that fills the report.
- **path planner** (`planner.dfy`):
  - loading records by id;
  - the depth-first plan, which lists every record after its known
    prerequisites and visits ids in sorted order.
- **site generator** (`sitegen.dfy`):
  - loading records;
  - the graph data (nodes coloured by status, one link per prerequisite
    entry);
  - the header link rewrite and the hash prefix shown on record pages.
- **shared documents** (`documents.dfy`):
  - parsed YAML as a `Value` datatype;
  - the directory walk as a sequence of entries, each with a file name and
    either the parsed document or the parser's message;
  - Python's `in` and `dict.get` on such values, and the iteration of a
    `prerequisites` field.

The Python code reads the clock, the file system and a SHA-256
implementation. Here these are parameters:

- the clock is a function `nat -> Moment`, giving the timestamp of the n-th
  audit write;
- the engine tree is a map from path to file or directory;
- SHA-256 is a function `string -> string`.

Where the gate or `heal` crashes on an input the model covers (an uncaught
`TypeError` or YAML error), the model returns a `crashed` flag together with
the state reached before the crash. The planner's and the site generator's
crashes are instead excluded by preconditions, and the crash of `heal` when
its error file cannot be written is not modelled; "## Left out" lists both.

Some behaviour of the code is worth stating on its own:

- The normaliser is not idempotent. `NormalizeNotIdempotent` exhibits
  `"/ /x"`, which normalises to `"//x"`, which normalises to `""`.
  `NormalizeIdempotentWithoutSlash` proves idempotence whenever the result
  has no `/`.
- The gate does not drop an unparsable or schema-invalid file. It records the
  file as INVALID under its file name, or under its `id` if it has one
  (`KeyFallsBackToFileName`).
- The snippet window is the half-open slice `[L - h, L + h)` with
  `h = context_lines // 2`, not a closed `[L - h, L + h]`.
- Records are visited in directory-walk order, not sorted, except for the
  planner's explicit sort of the ids.
- `heal` computes no persistent status. Its audit file name has a resolution
  of one second, so two items of one record checked in the same second write
  the same file (`SameSecondSameFile`). The later write replaces the earlier
  one (`AuditLastWriteWins`).
- A failing extraction writes `error_<id>.json` and is not counted as
  needing review (`ReviewCountExcludesOthers`, which follows from
  `ReviewCountIsFlaggedItems`).

## Model

| member | source | states |
|---|---|---|
| Documents.Prereqs | tools/path_planner/cmd.py:55 | `lo.get("prerequisites", [])` iterated: nothing when the field is absent, the list's items in order for a list, one one-character string per character for a string; for a list of hashable items or a string, every entry is hashable |
| Strings.Find | tools/freshness/cmd.py:52 | `str.find`: -1 exactly when the pattern does not occur, otherwise the first offset where it occurs |
| Strings.Replace | tools/site_gen/cmd.py:190 | `str.replace`: scans left to right and replaces each non-overlapping occurrence; its properties for the header rewrite are RelativizeRoundTrip and EveryHrefGoesUp |
| Strings.PyRepr | tools/freshness/cmd.py:162-165 | Python's `repr` of a string, as it appears in `str(e)` of an OS error: at least two characters, opening and closing with the same quote, which is `"` exactly when the text holds a `'` and no `"` |
| Strings.ReprPlain | tools/freshness/cmd.py:162-165 | text with no quote, backslash, tab, newline, carriage return or unprintable character is shown as written between single quotes |
| Strings.ReprApostrophe | tools/freshness/cmd.py:162-165 | `it's` is shown as `"it's"` |
| Strings.ReprBackslash | tools/freshness/cmd.py:162-165 | `a\b` is shown with its backslash doubled, as `'a\\b'` |
| Files.JoinPath | tools/freshness/cmd.py:111 | `engine_path / ev.file` (also tools/gate/validator.py:54) as the root, one `/`, and the relative path; the evidence lemmas MissingEvidenceExact and ItemClassification use it |
| Models.ParseType | tools/gate/models.py:6-10 | a type string is accepted exactly when it is one of concept, task, troubleshooting and reference, and it maps to the member with that value |
| Models.TypeNameRoundTrip | tools/gate/models.py:6-10 | every LOType parses back from its value |
| Models.StrField | tools/gate/models.py:19-22 | a required string field is accepted exactly when it is present and a string, and then it yields that string; otherwise there is at least one error |
| Models.TypeField | tools/gate/models.py:20 | `type` is accepted exactly when it is a string naming an LOType, and the result names it |
| Models.StrItems | tools/gate/models.py:23 | a list of strings is accepted exactly when every item is a string, and it keeps every item in order |
| Models.StrListField | tools/gate/models.py:23 | an optional string list defaults to `[]` when absent, is accepted exactly when it is absent or a list of strings, and then holds those strings in order |
| Models.EvidenceField | tools/gate/models.py:12-16 | an evidence item is accepted exactly when it is a mapping with string file, symbol, symbol_id and snippet_hash, and it carries those four strings |
| Models.EvidenceItems | tools/gate/models.py:24 | an evidence list is accepted exactly when every item is a valid evidence mapping, and then holds each item's file, symbol, symbol_id and snippet_hash, in order |
| Models.EvidenceListField | tools/gate/models.py:24 | `evidence` defaults to `[]` when absent, is accepted exactly when it is absent or a list of valid items, and then holds those items in order |
| Models.SkillField | tools/gate/models.py:28 | `skill_level` is None when absent or null, the string when it is a string, and an error otherwise |
| Models.Build | tools/gate/models.py:18-28 | `LearningObject(**data)` succeeds exactly on a well-formed mapping; a non-mapping gives the "not a keyword mapping" error and an invalid mapping gives a non-empty error list; on success id, type, title and description are the document's strings, prerequisites, evidence and roles are the document's lists (or `[]` when absent), and skill_level is the document's string (or None when absent or null) |
| Models.BuildRoundTrip | tools/gate/models.py:12-28 | building the document written from any learning object gives that object back |
| Models.RequiredFieldsSuffice | tools/gate/models.py:18-28 | id, type, title and description alone build a record whose other fields take their defaults |
| Models.RequiredFieldsNeeded | tools/gate/models.py:19-22 | removing any one of the four required fields makes the build fail |
| Freshness.StripLineComments | tools/freshness/cmd.py:20 | `re.sub(r'//.*', '', s)`: each `//` up to its newline is removed; stated by LineCommentsOnlyDelete, LineCommentRunsToEnd and LineCommentStopsAtNewline |
| Freshness.StripBlockComments | tools/freshness/cmd.py:22 | `re.sub(r'/\*.*?\*/', '', s, flags=re.DOTALL)`: each `/*` up to the first following `*/` is removed; stated by BlockCommentsOnlyDelete, UnclosedBlockKept and BlockCommentEndsAtFirstClose |
| Freshness.Normalize | tools/freshness/cmd.py:12-25 | line comments, then block comments, then whitespace are removed; stated by NormalizeOnlyDeletes, LineCommentsFirst, BlockCommentsNonGreedy, NoSlashNormalizeIsStripWhitespace and the idempotence lemmas |
| Freshness.ComputeHash | tools/freshness/cmd.py:27-29 | the digest of the normal form; stated by HashDependsOnlyOnNormalized |
| Freshness.StripWhitespace | tools/freshness/cmd.py:24 | the result has no whitespace character, text without whitespace is left unchanged, and a single whitespace character is removed |
| Freshness.StripWhitespaceAppend | tools/freshness/cmd.py:24 | whitespace is removed piece by piece: stripping `a + b` is stripping `a`, then `b`, so every non-whitespace character survives in order |
| Freshness.LineCommentsOnlyDelete | tools/freshness/cmd.py:20 | removing line comments only deletes characters: the result is a subsequence of the input |
| Freshness.BlockCommentsOnlyDelete | tools/freshness/cmd.py:22 | removing block comments only deletes characters |
| Freshness.NormalizeOnlyDeletes | tools/freshness/cmd.py:12-25 | the normalised snippet is a subsequence of the input, no longer than it, and has no whitespace |
| Freshness.LineCommentRunsToEnd | tools/freshness/cmd.py:20 | a `//` comment on the last line removes the rest of the text |
| Freshness.LineCommentStopsAtNewline | tools/freshness/cmd.py:20 | a `//` comment removes text up to its newline, keeps the newline, and the text after it is processed on its own |
| Freshness.UnclosedBlockKept | tools/freshness/cmd.py:22 | text containing no `*/` passes the block-comment pass unchanged, so an unclosed `/*` and everything after it are kept |
| Freshness.BlockCommentEndsAtFirstClose | tools/freshness/cmd.py:22 | a block comment ends at the first `*/`, not the last |
| Freshness.BlockCommentsNonGreedy | tools/freshness/cmd.py:20-24 | `/*a*/b/*c*/` normalises to `b`: two comments are removed separately |
| Freshness.LineCommentsFirst | tools/freshness/cmd.py:20-24 | line comments are removed before block comments, so `/* a // b */ c` normalises to `/*a` |
| Freshness.NoSlashNoComments | tools/freshness/cmd.py:20-22 | text without `/` passes both comment passes unchanged |
| Freshness.NoSlashNormalizeIsStripWhitespace | tools/freshness/cmd.py:12-29 | without `/`, normalising only removes whitespace, and two texts that agree outside whitespace hash the same |
| Freshness.HashDependsOnlyOnNormalized | tools/freshness/cmd.py:27-29 | two snippets with the same normal form have the same hash |
| Freshness.NormalizeIdempotentWithoutSlash | tools/freshness/cmd.py:12-25 | normalising twice equals normalising once when the normal form has no `/` |
| Freshness.NormalizeNotIdempotent | tools/freshness/cmd.py:12-25 | `/ /x` normalises to `//x`, which normalises to the empty text |
| Freshness.UniversalNewlines | tools/freshness/cmd.py:48-49 | text read in text mode has no carriage return and is never longer than the raw text |
| Freshness.TextWithoutCrUnchanged | tools/freshness/cmd.py:48-49 | text without a carriage return is read as written |
| Freshness.CrLfReadAsLf | tools/freshness/cmd.py:48-49 | a `\r\n` is read as one `\n`, and the text before it as written |
| Freshness.LoneCrReadAsLf | tools/freshness/cmd.py:48-49 | a `\r` not followed by `\n` is read as one `\n` |
| Freshness.ReadText | tools/freshness/cmd.py:39-49 | reading fails with file-not-found exactly when the path is missing and with is-a-directory exactly when it is a directory; otherwise it succeeds with the file's text after newline translation |
| Freshness.ErrorMessage | tools/freshness/cmd.py:46-56 | `str(e)` of each extraction failure: the missing-file and missing-symbol texts as formatted, and `[Errno 21] Is a directory: ` with the path through `repr` when a directory is opened; stated by DirectoryMessageQuotesPath |
| Freshness.DirectoryMessageQuotesPath | tools/freshness/cmd.py:48 | opening a directory whose path needs no escape gives `[Errno 21] Is a directory: '<path>'` |
| Freshness.ExtractSnippetWindow | tools/freshness/cmd.py:31-67 | fails with FileNotFound exactly when the path is missing, IsADirectory exactly when it is a directory, SymbolNotFound exactly when the text lacks the symbol; otherwise the window is taken around the line of the symbol's first occurrence |
| Freshness.SplitLines | tools/freshness/cmd.py:63 | `str.splitlines()`: breaks at every line boundary Python knows and drops the breaks; stated by LineCountMatchesNewlines, LineOfOffsetExists and FormFeedShiftsWindow |
| Freshness.WindowLines | tools/freshness/cmd.py:64-67 | the lines from `max(0, L - h)` to `min(n, L + h)` with `h = context_lines // 2`; stated by WindowIsBoundedSlice, SmallContextEmptyWindow and WindowHoldsLine |
| Freshness.WindowIsBoundedSlice | tools/freshness/cmd.py:64-67 | the window is the lines from `max(0, L - h)` up to but excluding `min(n, L + h)`, at most `2h` lines, and empty when those bounds cross |
| Freshness.SmallContextEmptyWindow | tools/freshness/cmd.py:64-65 | a context of 0 or 1 lines gives an empty window |
| Freshness.LineCountMatchesNewlines | tools/freshness/cmd.py:60-63 | for text whose only line break is `\n`, `splitlines()` gives one line per `\n`, plus one for an unterminated last line |
| Freshness.LineOfOffsetExists | tools/freshness/cmd.py:60-63 | for such text, the line number counted up to any offset names an existing line |
| Freshness.WindowHoldsLine | tools/freshness/cmd.py:64-67 | an existing line lies inside a window of at least two context lines |
| Freshness.SymbolLineInWindow | tools/freshness/cmd.py:52-67 | for such text and a context of at least two, the line holding the symbol's first occurrence is in the window |
| Freshness.FormFeedShiftsWindow | tools/freshness/cmd.py:60-65 | with a form feed before the symbol, the counted line number and the split lines disagree, and the window misses the symbol's line |
| Heal.CrashIndex | tools/freshness/cmd.py:96-101 | the pass runs up to the first knowledge file whose YAML does not parse, and stops there |
| Heal.RecordOf | tools/freshness/cmd.py:96-106 | a file is checked exactly when it is a .yml/.yaml file that parses into a well-formed record, and it is checked as that record |
| Heal.ChecksOf | tools/freshness/cmd.py:110 | a record gives one check per evidence item, in order |
| Heal.Outcome | tools/freshness/cmd.py:111-115 | the snippet's hash, or the error text when extraction fails; stated by ItemClassification and MechanicalDriftInvisible |
| Heal.WriteFor | tools/freshness/cmd.py:133-165 | the audit write for one item: the stamped audit entry, VERIFIED or FLAGGED, or `error_<id>.json` with the error text; stated by ItemClassification and SameSecondSameFile |
| Heal.RecordsAreTheWellFormedFiles | tools/freshness/cmd.py:96-108 | a record is checked exactly when some walked file yields it |
| Heal.LogItem | tools/freshness/cmd.py:110-165 | logging one item writes the file the item's outcome calls for, and counts it as needing review exactly when it is flagged |
| Heal.CheckRecord | tools/freshness/cmd.py:110-165 | checking a record appends one write per evidence item, keeps the review count equal to the flagged writes, and applies every write to the audit directory |
| Heal.RunHeal | tools/freshness/cmd.py:69-167 | assuming every audit write succeeds: crashes exactly when some knowledge file fails to parse; before that, checks every record, writes one file per evidence item in order, reports as needing review the number of flagged writes, and leaves the audit directory as the writes applied to it in order |
| Heal.ItemClassification | tools/freshness/cmd.py:113-165 | an item gets an audit entry exactly when its snippet is extracted; the entry holds the stored hash, the recomputed hash, the id, symbol, file, timestamp and reason, and is VERIFIED iff the hashes agree and FLAGGED iff they differ; a failed extraction writes the error message to `error_<id>.json` |
| Heal.MechanicalDriftInvisible | tools/freshness/cmd.py:113-133 | two engine trees whose snippets normalise alike give the same audit write |
| Heal.EveryItemLogged | tools/freshness/cmd.py:108-160 | the number of checks equals the total number of evidence items of the checked records |
| Heal.ReviewCountIsFlaggedItems | tools/freshness/cmd.py:94-142 | the review count is the number of flagged writes, and at most the number of writes |
| Heal.AuditUntouched | tools/freshness/cmd.py:156-165 | an audit file that no write names keeps its presence and content |
| Heal.AuditLastWriteWins | tools/freshness/cmd.py:156-165 | an audit file holds the last document written to its name |
| Heal.SameSecondSameFile | tools/freshness/cmd.py:156-165 | two items of one record logged in the same second share an audit file name, and so do two failed items of one record |
| Gate.StatusName | tools/gate/validator.py:11-15 | the status string is "verified" exactly for VERIFIED |
| Gate.GateReport.constructor | tools/gate/validator.py:18-20 | a new report has no results and no statuses |
| Gate.GateReport.AddResult | tools/gate/validator.py:22-27 | records the status and errors under the id in both maps, replacing an earlier entry, and keeps the two maps in agreement |
| Gate.MissingEvidence | tools/gate/validator.py:52-56 | one "Evidence file not found" message per evidence item whose joined path does not exist, in order; stated by CheckEvidence and MissingEvidenceExact |
| Gate.FileVerdict | tools/gate/validator.py:35-61 | the parse error, the schema error, the missing-evidence messages or VERIFIED, in that order of checks, and no verdict where Python raises; stated by ValidateLoFile, VerifiedIffNoErrors, FailuresGiveOneMessage, NoRootNoEvidenceCheck and VerifiedIffEvidenceExists |
| Gate.ValidateLoFile | tools/gate/validator.py:35-61 | crashes exactly where the file verdict is undefined, and otherwise returns that verdict's status and errors |
| Gate.CheckEvidence | tools/gate/validator.py:52-56 | returns the missing-file message of every evidence item whose file does not exist, in order |
| Gate.CrashesExactlyOnNonMapping | tools/gate/validator.py:45-49 | validation raises exactly when the file parses to something that is not a mapping |
| Gate.VerifiedIffNoErrors | tools/gate/validator.py:58-61 | a verdict is VERIFIED or INVALID, and VERIFIED exactly when its error list is empty |
| Gate.FailuresGiveOneMessage | tools/gate/validator.py:38-49 | a YAML failure gives INVALID with the one parse message, and a schema failure gives INVALID with the one schema message |
| Gate.NoRootNoEvidenceCheck | tools/gate/validator.py:51-61 | without an engine root, or with evidence skipped, every well-formed record is VERIFIED |
| Gate.MissingEvidenceExact | tools/gate/validator.py:52-56 | there is at most one message per item, every message names an item whose file is missing, and every missing file gives its message |
| Gate.VerifiedIffEvidenceExists | tools/gate/validator.py:51-61 | with the evidence check on, a well-formed record is VERIFIED exactly when every evidence file exists |
| Gate.EnginePath | tools/gate/validator.py:67 | an engine root that is absent or empty means no evidence check, and any other root is passed on unchanged |
| Gate.RunCrashIndex | tools/gate/validator.py:70-86 | the pass stops at the first knowledge file that crashes validation or has an unhashable id |
| Gate.ValidateEntry | tools/gate/validator.py:72-86 | crashes exactly on a crashing entry; otherwise reports under the entry's key, which is hashable |
| Gate.RunValidation | tools/gate/validator.py:63-91 | returns a fresh, consistent report; crashes exactly when some walked file crashes, and otherwise holds the results and statuses of every knowledge file, the last file winning per key; after a crash it holds the files before the crash |
| Gate.StatusAgreesWithResults | tools/gate/validator.py:22-27 | the status map and the results map have the same keys, and each status is that result's status |
| Gate.EveryRecordFileReported | tools/gate/validator.py:70-86 | the report's keys are exactly the keys of the walked .yml/.yaml files |
| Gate.LastFileWins | tools/gate/validator.py:79-86 | a key's result is the verdict of the last file reported under it |
| Gate.KeyFallsBackToFileName | tools/gate/validator.py:79-84 | a file that does not parse, or has no `id`, is reported under its file name; otherwise under its `id` |
| Gate.ReportKey | tools/gate/validator.py:79-84 | `data.get("id", file)` for a parsed mapping, the file name otherwise; stated by KeyFallsBackToFileName |
| Gate.VerifiedCount | tools/gate/cmd.py:20-21 | the verified count plus the number of entries that are not VERIFIED is the number of entries, so it equals the number of entries exactly when every entry is VERIFIED |
| Planner.PathPlanner.constructor | tools/path_planner/cmd.py:11-19 | a new planner holds the records loaded from the walk |
| Planner.Keeps | tools/path_planner/cmd.py:25-31 | a file is loaded when it is a .yml/.yaml file that parses to a mapping with a hashable `id`; any other file is skipped by the bare `except` |
| Planner.LoadInto | tools/path_planner/cmd.py:21-32 | the loaded map after the walk: each kept file stored under its id, in walk order; stated by LoadedIds and LoadLastWins |
| Planner.PathPlanner.LoadLos | tools/path_planner/cmd.py:21-32 | adds every parsed knowledge file that has an `id` under that id, later files overwriting earlier ones |
| Planner.LoadedIds | tools/path_planner/cmd.py:21-32 | an id is loaded exactly when it was already present or some kept file carries it |
| Planner.LoadLastWins | tools/path_planner/cmd.py:29-30 | an id maps to the document of the last file carrying it |
| Planner.LeastIdExists | tools/path_planner/cmd.py:65 | a non-empty set of string ids has a strictly least id |
| Planner.SortIds | tools/path_planner/cmd.py:65 | `sorted(ids)`: the same ids, strictly increasing |
| Planner.PathPlanner.Visit | tools/path_planner/cmd.py:46-59 | visiting an id adds exactly the ids reachable from it through known prerequisites that were not yet visited, each after its known prerequisites; afterwards every id reachable from it is visited; an unknown or visited id changes nothing |
| Planner.PathPlanner.VisitPrereqs | tools/path_planner/cmd.py:55-56 | after the loop every known prerequisite of the record is visited, and the record itself is not yet visited |
| Planner.PathPlanner.PlanStep | tools/path_planner/cmd.py:66-67 | one step of the sorted loop visits the id and everything before it; with no known prerequisites it appends exactly that id |
| Planner.PathPlanner.Plan | tools/path_planner/cmd.py:34-69 | the path lists every loaded record exactly once, each record after its known prerequisites, and in sorted id order when no record has a known prerequisite |
| Planner.CycleHasNoRank | tools/path_planner/cmd.py:46-59 | a prerequisite cycle admits no ranking, so the plan's ranking precondition excludes every cyclic library, on which `visit` recurses forever |
| SiteGen.SiteGenerator.constructor | tools/site_gen/cmd.py:11-21 | the generator holds the status file's map, or the empty map when there is none, and the records loaded from the walk |
| SiteGen.Keeps | tools/site_gen/cmd.py:27-34 | a file is loaded when it is a .yml/.yaml file that parses to a document for which `"id" in data` is true; a document on which `in` raises is skipped |
| SiteGen.Kept | tools/site_gen/cmd.py:23-34 | the kept documents in walk order; stated by KeptLength and KeptMembers |
| SiteGen.SiteGenerator.LoadLos | tools/site_gen/cmd.py:23-34 | appends, in walk order, every parsed .yml/.yaml document for which `"id" in data` holds, and leaves the status map alone |
| SiteGen.KeptLength | tools/site_gen/cmd.py:23-34 | one record is loaded per kept file |
| SiteGen.KeptMembers | tools/site_gen/cmd.py:23-34 | a document is loaded exactly when some kept file parsed to it |
| SiteGen.Color | tools/site_gen/cmd.py:58 | green exactly for "verified", orange exactly for "needs_review", red for every other status |
| SiteGen.NodeOf | tools/site_gen/cmd.py:57-66 | a record's node: its id, title and type, its status (or "unknown") and that status's colour; stated by GenerateGraphJson and UnknownAndInvalidAreRed |
| SiteGen.LinksOf | tools/site_gen/cmd.py:68-69 | the links of all records in order; stated by LinkCountIsPrereqTotal and LinkIffPrereqEntry |
| SiteGen.UnknownAndInvalidAreRed | tools/site_gen/cmd.py:57-58 | a record with no status, or with status "invalid", is drawn red |
| SiteGen.SiteGenerator.GenerateGraphJson | tools/site_gen/cmd.py:53-73 | for records with an id, title and type and a list or string of prerequisites: one node per record in order, each with the record's id, title, type, status and colour, and the links of all records in order |
| SiteGen.Graph | tools/site_gen/cmd.py:54-69 | the graph loop builds the node list and link list that the specification functions define |
| SiteGen.AppendLinks | tools/site_gen/cmd.py:68-69 | appends one record's links to the list |
| SiteGen.LinksOfOne | tools/site_gen/cmd.py:68-69 | one link per prerequisite entry, in order, each from the prerequisite to the record's id |
| SiteGen.LinkCountIsPrereqTotal | tools/site_gen/cmd.py:68-69 | the number of links is the total number of prerequisite entries, duplicates, unknown ids and unhashable entries included |
| SiteGen.LinkIffPrereqEntry | tools/site_gen/cmd.py:68-69 | a link is present exactly when some record lists its source as a prerequisite and has its target as id, whatever the prerequisite entries are |
| SiteGen.LinkOfOneIff | tools/site_gen/cmd.py:68-69 | a record's links are exactly its prerequisite entries, each pointing at its id |
| SiteGen.RelativizeLinks | tools/site_gen/cmd.py:190 | `_header().replace('href="', 'href="../')`; stated by RelativizeRoundTrip and EveryHrefGoesUp |
| SiteGen.RelativizeRoundTrip | tools/site_gen/cmd.py:190 | rewriting `href="` to `href="../` loses nothing: the reverse replacement gives the header back |
| SiteGen.EveryHrefGoesUp | tools/site_gen/cmd.py:190 | no link is left un-prefixed: wherever `href="` occurs in the rewritten header, `href="../` occurs |
| SiteGen.HashPrefix | tools/site_gen/cmd.py:182 | the shown hash is the hash's first eight characters, or the whole hash when it is shorter |

## Left out

- YAML parsing, `os.walk`, and opening and reading files are inputs. The
  walk is a sequence of entries, each holding the file name and either the
  parsed document or the parser's message. The engine tree is a map.
- The YAML value space is reduced to null, booleans, integers, strings,
  lists and string-keyed mappings. Floats, dates and non-string keys are
  not modelled. Python's `True == 1` identification of keys is not modelled.
- Text is a sequence of code points. Decoding with `errors="replace"` and
  UTF-8 encoding before hashing are folded into the file contents and the
  SHA-256 parameter. SHA-256 itself is a parameter.
- Freshness.ComputeHash: states no property of SHA-256 (collision
  resistance, length), because the digest is a parameter.
- Strings.PyRepr: escapes the unprintable characters below U+0100 only.
  Python also escapes unprintable characters above U+00FF (`\u`/`\U`
  escapes, for instance for U+2028); those are kept as written.
- Freshness.ErrorMessage: gives the POSIX text for opening a directory.
  On Windows the same open raises `PermissionError` (`[Errno 13]
  Permission denied`); that platform is not modelled.
- `datetime.now()` is the clock parameter. Console output, `from_sha`,
  `to_sha` and the unused `healed_count` only affect printing.
- The status `heal` computes per item is never persisted. Only the audit
  entry and the review count are modelled.
- Freshness.SymbolLineInWindow: is stated only for text whose only line
  break is `\n`. `splitlines()` also breaks on form feeds and other
  separators that the line-number count ignores, and then the window can
  miss the symbol (FormFeedShiftsWindow).
- Writing `out/status.json` and `out/gate_report.json`, and the command-line
  wrappers in `tools/gate/cmd.py`, are I/O. The count they print is
  `Gate.VerifiedCount`.
- Planner.PathPlanner.Plan: requires every loaded id to be a string, because
  `sorted()` on a mix of strings and other values raises `TypeError`.
  A library of integer-only ids, which Python can sort, is not modelled.
- Planner.PathPlanner.Plan: requires the prerequisite graph to be acyclic,
  shown by a ranking (ghost). `visit` marks an id only after its
  prerequisites, so on a cycle the Python recursion never ends and raises
  `RecursionError`; that crash is not modelled. Python's default recursion
  limit (about 1000 frames) also stops an acyclic chain of prerequisites
  about 1000 deep; the model has no such limit. Its determinism is not
  stated as a property of its own.
- Planner.PathPlanner.Plan: requires every loaded record's prerequisites
  field to be absent, a list of hashable values, or a string. A mapping is
  iterable in Python and is iterated by its keys; that case is not
  modelled. A null, integer or boolean field raises `TypeError`, and an
  unhashable entry raises `TypeError` at `lo_id in visited`; those crashes
  are not modelled.
- Planner.CycleHasNoRank: only one direction is proved. A cyclic library
  has no ranking; that every acyclic library has one is not proved, so
  the ranking precondition may in principle exclude more than the cyclic
  libraries.
- The planner's context file, its markdown output and its console table are
  I/O.
- SiteGen.SiteGenerator.GenerateGraphJson: requires every record to have
  an `id`, a `title` and a `type` (of any kind), an id that is hashable
  (it is looked up with `dict.get`), and a prerequisites field that is
  absent, a list or a string. The entries of the list may be anything.
  A mapping-valued prerequisites field is iterated by its keys in Python;
  that case is not modelled. A null, integer or boolean field raises
  `TypeError`, and a missing key raises `KeyError`; those crashes are not
  modelled. Every record must also be a mapping: a string or list document
  that contains `"id"` passes `load_los` and then raises `TypeError` at
  `lo["id"]` (tools/site_gen/cmd.py:56-57); that crash is not modelled.
- Heal.RunHeal, Heal.LogItem and Heal.CheckRecord: every audit write is
  taken to succeed. In Python the review count is raised before the audit
  file is opened, and the open sits inside the `try`: a failing open (an
  id containing `/`, or a stamped name over the file-name limit) lands in
  the `except`, which writes `error_<id>.json` instead, so the item is
  counted without an audit entry. The error file is opened outside any
  `try`, so when it cannot be written either, `run_heal` stops with the
  exception. Neither outcome is modelled.
- Files.JoinPath: joins with one `/`. Pathlib's behaviour is not modelled:
  an absolute evidence path replaces the engine root, `Path("")` is `.`,
  and `..` and doubled separators are kept as written.
- The schema follows pydantic version 2's string handling: a string field
  accepts only a string, and an integer or boolean there is an error.
  Version 1, which turns numbers into strings, is not modelled.
- The HTML pages (index, record pages, graph page, path page), the CSS and
  JS assets and the JSON files are text and file output. Only the header
  rewrite and the eight-character hash prefix of the record page are
  modelled.
- `tools/cli.py`, the capture, init and serve commands, and everything
  outside the five tools above are not part of this model.
