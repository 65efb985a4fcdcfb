/**
 * The record schema both passes consume (tools/gate/models.py): the closed
 * learning-object type, evidence items and learning objects, and the
 * field-by-field check that `LearningObject(**data)` performs on a loaded
 * document, with its defaults.
 */
module Models {
  import opened Wrappers
  import opened Documents

  datatype LOType = Concept | Task | Troubleshooting | Reference

  /** The string value of each enum member. */
  function TypeName(t: LOType): string {
    match t
    case Concept => "concept"
    case Task => "task"
    case Troubleshooting => "troubleshooting"
    case Reference => "reference"
  }

  /** Enum lookup by value: only the four member values are admitted. */
  function ParseType(s: string): (r: Option<LOType>)
    ensures r.Some? <==> s == "concept" || s == "task" || s == "troubleshooting" || s == "reference"
    ensures r.Some? ==> TypeName(r.value) == s
  {
    if s == "concept" then Some(Concept)
    else if s == "task" then Some(Task)
    else if s == "troubleshooting" then Some(Troubleshooting)
    else if s == "reference" then Some(Reference)
    else None
  }

  lemma TypeNameRoundTrip(t: LOType)
    ensures ParseType(TypeName(t)) == Some(t)
  {
  }

  datatype EvidenceItem = EvidenceItem(file: string, symbol: string, symbolId: string, snippetHash: string)

  datatype LearningObject = LearningObject(
    id: string,
    loType: LOType,
    title: string,
    description: string,
    prerequisites: seq<string>,
    evidence: seq<EvidenceItem>,
    roles: seq<string>,
    skillLevel: Option<string>)

  /** Where a schema error was found: a field name or a list position. */
  datatype Loc = Key(key: string) | Index(index: nat)

  datatype ErrorKind = MissingField | NotAString | NotAList | NotAMapping | NotAnLOType

  datatype FieldError = FieldError(loc: seq<Loc>, kind: ErrorKind)

  /** Why `LearningObject(**data)` fails: a `TypeError` when the document is
      not a mapping, otherwise a validation error listing every bad field. */
  datatype SchemaError = NotAKeywordMapping | Invalid(errors: seq<FieldError>)

  type Checked<T> = Result<T, seq<FieldError>>

  function ErrorsOf<T>(c: Checked<T>): seq<FieldError> {
    if c.Failure? then c.error else []
  }

  // ---------------------------------------------------------------------
  // The reference definition: which documents the schema admits.
  // ---------------------------------------------------------------------

  predicate IsStrField(m: map<string, Value>, key: string) {
    key in m && m[key].Str?
  }

  predicate IsEvidenceDoc(v: Value) {
    v.Mapping?
    && IsStrField(v.entries, "file") && IsStrField(v.entries, "symbol")
    && IsStrField(v.entries, "symbol_id") && IsStrField(v.entries, "snippet_hash")
  }

  predicate AllStr(xs: seq<Value>) {
    forall k | 0 <= k < |xs| :: xs[k].Str?
  }

  predicate AllEvidence(xs: seq<Value>) {
    forall k | 0 <= k < |xs| :: IsEvidenceDoc(xs[k])
  }

  /** The strings of a list whose items are all strings. */
  function StrsOf(xs: seq<Value>): (r: seq<string>)
    requires AllStr(xs)
  {
    seq(|xs|, k requires 0 <= k < |xs| => xs[k].s)
  }

  /** The evidence item an evidence mapping describes. */
  function EvidenceOf(v: Value): EvidenceItem
    requires IsEvidenceDoc(v)
  {
    EvidenceItem(v.entries["file"].s, v.entries["symbol"].s, v.entries["symbol_id"].s, v.entries["snippet_hash"].s)
  }

  /** The evidence items of a list of evidence mappings. */
  function EvidencesOf(xs: seq<Value>): seq<EvidenceItem>
    requires AllEvidence(xs)
  {
    seq(|xs|, k requires 0 <= k < |xs| => EvidenceOf(xs[k]))
  }

  /** A list field with a default: absent, or a list whose items pass. */
  predicate OptStrList(m: map<string, Value>, key: string) {
    key !in m || (m[key].List? && AllStr(m[key].items))
  }

  /** The schema of tools/gate/models.py, field by field. */
  predicate WellFormedDoc(doc: Value) {
    doc.Mapping? &&
    var m := doc.entries;
    && IsStrField(m, "id")
    && IsStrField(m, "type") && ParseType(m["type"].s).Some?
    && IsStrField(m, "title")
    && IsStrField(m, "description")
    && OptStrList(m, "prerequisites")
    && ("evidence" !in m || (m["evidence"].List? && AllEvidence(m["evidence"].items)))
    && OptStrList(m, "roles")
    && ("skill_level" !in m || m["skill_level"].Null? || m["skill_level"].Str?)
  }

  // ---------------------------------------------------------------------
  // The check itself, collecting every error as pydantic does.
  // ---------------------------------------------------------------------

  /** A required `str` field. */
  function StrField(m: map<string, Value>, key: string, at: seq<Loc>): (r: Checked<string>)
    ensures r.Success? <==> IsStrField(m, key)
    ensures r.Success? ==> r.value == m[key].s
    ensures r.Failure? ==> r.error != []
  {
    if key !in m then Failure([FieldError(at + [Key(key)], MissingField)])
    else if m[key].Str? then Success(m[key].s)
    else Failure([FieldError(at + [Key(key)], NotAString)])
  }

  /** The required `type` field, an `LOType`. */
  function TypeField(m: map<string, Value>): (r: Checked<LOType>)
    ensures r.Success? <==> IsStrField(m, "type") && ParseType(m["type"].s).Some?
    ensures r.Success? ==> TypeName(r.value) == m["type"].s
    ensures r.Failure? ==> r.error != []
  {
    if "type" !in m then Failure([FieldError([Key("type")], MissingField)])
    else if m["type"].Str? && ParseType(m["type"].s).Some? then Success(ParseType(m["type"].s).value)
    else Failure([FieldError([Key("type")], NotAnLOType)])
  }

  /** The items of a `List[str]` field, from position `i` on. */
  function StrItems(xs: seq<Value>, key: string, i: nat): (r: Checked<seq<string>>)
    ensures r.Success? <==> AllStr(xs)
    ensures r.Success? ==> |r.value| == |xs| && forall k | 0 <= k < |xs| :: r.value[k] == xs[k].s
    ensures r.Failure? ==> r.error != []
    decreases |xs|
  {
    if xs == [] then Success([])
    else
      var rest := StrItems(xs[1..], key, i + 1);
      assert AllStr(xs) <==> xs[0].Str? && AllStr(xs[1..]) by {
        assert forall k | 1 <= k < |xs| :: xs[k] == xs[1..][k - 1];
      }
      if xs[0].Str? then
        match rest
        case Success(ss) => Success([xs[0].s] + ss)
        case Failure(es) => Failure(es)
      else Failure([FieldError([Key(key), Index(i)], NotAString)] + ErrorsOf(rest))
  }

  /** A `List[str]` field with an empty-list default. */
  function StrListField(m: map<string, Value>, key: string): (r: Checked<seq<string>>)
    ensures r.Success? <==> OptStrList(m, key)
    ensures key !in m ==> r == Success([])
    ensures r.Success? && key in m ==> r.value == StrsOf(m[key].items)
    ensures r.Failure? ==> r.error != []
  {
    if key !in m then Success([])
    else if m[key].List? then StrItems(m[key].items, key, 0)
    else Failure([FieldError([Key(key)], NotAList)])
  }

  /** One item of the `evidence` list: all four string fields are required;
      other keys are ignored. */
  function EvidenceField(v: Value, i: nat): (r: Checked<EvidenceItem>)
    ensures r.Success? <==> IsEvidenceDoc(v)
    ensures r.Success? ==> r.value == EvidenceOf(v)
    ensures r.Failure? ==> r.error != []
  {
    if !v.Mapping? then Failure([FieldError([Key("evidence"), Index(i)], NotAMapping)])
    else
      var at := [Key("evidence"), Index(i)];
      var file := StrField(v.entries, "file", at);
      var symbol := StrField(v.entries, "symbol", at);
      var symbolId := StrField(v.entries, "symbol_id", at);
      var hash := StrField(v.entries, "snippet_hash", at);
      if file.Success? && symbol.Success? && symbolId.Success? && hash.Success? then
        Success(EvidenceItem(file.value, symbol.value, symbolId.value, hash.value))
      else
        Failure(ErrorsOf(file) + ErrorsOf(symbol) + ErrorsOf(symbolId) + ErrorsOf(hash))
  }

  /** The items of the `evidence` list, from position `i` on. */
  function EvidenceItems(xs: seq<Value>, i: nat): (r: Checked<seq<EvidenceItem>>)
    ensures r.Success? <==> AllEvidence(xs)
    ensures r.Success? ==> r.value == EvidencesOf(xs)
    ensures r.Failure? ==> r.error != []
    decreases |xs|
  {
    if xs == [] then Success([])
    else
      var head := EvidenceField(xs[0], i);
      var rest := EvidenceItems(xs[1..], i + 1);
      assert AllEvidence(xs) <==> IsEvidenceDoc(xs[0]) && AllEvidence(xs[1..]) by {
        assert forall k | 1 <= k < |xs| :: xs[k] == xs[1..][k - 1];
      }
      if head.Success? && rest.Success? then Success([head.value] + rest.value)
      else Failure(ErrorsOf(head) + ErrorsOf(rest))
  }

  /** The `evidence` field with an empty-list default. */
  function EvidenceListField(m: map<string, Value>): (r: Checked<seq<EvidenceItem>>)
    ensures r.Success? <==> "evidence" !in m || (m["evidence"].List? && AllEvidence(m["evidence"].items))
    ensures "evidence" !in m ==> r == Success([])
    ensures r.Success? && "evidence" in m ==> r.value == EvidencesOf(m["evidence"].items)
    ensures r.Failure? ==> r.error != []
  {
    if "evidence" !in m then Success([])
    else if m["evidence"].List? then EvidenceItems(m["evidence"].items, 0)
    else Failure([FieldError([Key("evidence")], NotAList)])
  }

  /** `skill_level: Optional[str] = None`. */
  function SkillField(m: map<string, Value>): (r: Checked<Option<string>>)
    ensures r.Success? <==> "skill_level" !in m || m["skill_level"].Null? || m["skill_level"].Str?
    ensures r.Success? && "skill_level" in m && m["skill_level"].Str? ==> r.value == Some(m["skill_level"].s)
    ensures r.Success? && ("skill_level" !in m || m["skill_level"].Null?) ==> r.value == None
    ensures r.Failure? ==> r.error != []
  {
    if "skill_level" !in m || m["skill_level"].Null? then Success(None)
    else if m["skill_level"].Str? then Success(Some(m["skill_level"].s))
    else Failure([FieldError([Key("skill_level")], NotAString)])
  }

  /** `LearningObject(**data)`: the object, or why construction fails. */
  function Build(doc: Value): (r: Result<LearningObject, SchemaError>)
    ensures r.Success? <==> WellFormedDoc(doc)
    ensures r.Failure? ==> (r.error.NotAKeywordMapping? <==> !doc.Mapping?)
    ensures r.Failure? && r.error.Invalid? ==> r.error.errors != []
    ensures r.Success? ==> var m := doc.entries;
      && r.value.id == m["id"].s && TypeName(r.value.loType) == m["type"].s
      && r.value.title == m["title"].s && r.value.description == m["description"].s
      && r.value.prerequisites == (if "prerequisites" in m then StrsOf(m["prerequisites"].items) else [])
      && r.value.evidence == (if "evidence" in m then EvidencesOf(m["evidence"].items) else [])
      && r.value.roles == (if "roles" in m then StrsOf(m["roles"].items) else [])
      && r.value.skillLevel == (if "skill_level" in m && m["skill_level"].Str? then Some(m["skill_level"].s) else None)
  {
    if !doc.Mapping? then Failure(NotAKeywordMapping)
    else
      var m := doc.entries;
      var id := StrField(m, "id", []);
      var loType := TypeField(m);
      var title := StrField(m, "title", []);
      var description := StrField(m, "description", []);
      var prerequisites := StrListField(m, "prerequisites");
      var evidence := EvidenceListField(m);
      var roles := StrListField(m, "roles");
      var skill := SkillField(m);
      if id.Success? && loType.Success? && title.Success? && description.Success?
         && prerequisites.Success? && evidence.Success? && roles.Success? && skill.Success?
      then
        Success(LearningObject(id.value, loType.value, title.value, description.value,
                               prerequisites.value, evidence.value, roles.value, skill.value))
      else
        Failure(Invalid(ErrorsOf(id) + ErrorsOf(loType) + ErrorsOf(title) + ErrorsOf(description)
                        + ErrorsOf(prerequisites) + ErrorsOf(evidence) + ErrorsOf(roles) + ErrorsOf(skill)))
  }

  // ---------------------------------------------------------------------
  // Writing a record back as a document, and reading it again.
  // ---------------------------------------------------------------------

  function StrValues(ss: seq<string>): (r: seq<Value>)
    ensures |r| == |ss| && forall k | 0 <= k < |ss| :: r[k] == Str(ss[k])
  {
    seq(|ss|, k requires 0 <= k < |ss| => Str(ss[k]))
  }

  function EvidenceDoc(ev: EvidenceItem): Value {
    Mapping(map["file" := Str(ev.file), "symbol" := Str(ev.symbol),
                "symbol_id" := Str(ev.symbolId), "snippet_hash" := Str(ev.snippetHash)])
  }

  function EvidenceDocs(evs: seq<EvidenceItem>): (r: seq<Value>)
    ensures |r| == |evs| && forall k | 0 <= k < |evs| :: r[k] == EvidenceDoc(evs[k])
  {
    seq(|evs|, k requires 0 <= k < |evs| => EvidenceDoc(evs[k]))
  }

  /** The document a record file holding `lo` contains. */
  function ToDocument(lo: LearningObject): Value {
    Mapping(map[
      "id" := Str(lo.id),
      "type" := Str(TypeName(lo.loType)),
      "title" := Str(lo.title),
      "description" := Str(lo.description),
      "prerequisites" := List(StrValues(lo.prerequisites)),
      "evidence" := List(EvidenceDocs(lo.evidence)),
      "roles" := List(StrValues(lo.roles)),
      "skill_level" := if lo.skillLevel.Some? then Str(lo.skillLevel.value) else Null])
  }

  lemma {:induction false} StrItemsRoundTrip(ss: seq<string>, key: string, i: nat)
    ensures StrItems(StrValues(ss), key, i) == Success(ss)
  {
    var r := StrItems(StrValues(ss), key, i);
    assert r.Success? && |r.value| == |ss|;
    assert r.value == ss;
  }

  lemma {:induction false} EvidenceItemsRoundTrip(evs: seq<EvidenceItem>, i: nat)
    ensures EvidenceItems(EvidenceDocs(evs), i) == Success(evs)
    decreases |evs|
  {
    var docs := EvidenceDocs(evs);
    if evs != [] {
      assert docs[1..] == EvidenceDocs(evs[1..]);
      EvidenceItemsRoundTrip(evs[1..], i + 1);
      assert EvidenceField(docs[0], i) == Success(evs[0]);
      assert evs == [evs[0]] + evs[1..];
    }
  }

  /** What each key of the written document holds. */
  lemma DocumentFields(lo: LearningObject)
    ensures var m := ToDocument(lo).entries;
      && "id" in m && m["id"] == Str(lo.id)
      && "type" in m && m["type"] == Str(TypeName(lo.loType))
      && "title" in m && m["title"] == Str(lo.title)
      && "description" in m && m["description"] == Str(lo.description)
      && "prerequisites" in m && m["prerequisites"] == List(StrValues(lo.prerequisites))
      && "evidence" in m && m["evidence"] == List(EvidenceDocs(lo.evidence))
      && "roles" in m && m["roles"] == List(StrValues(lo.roles))
      && "skill_level" in m
      && m["skill_level"] == if lo.skillLevel.Some? then Str(lo.skillLevel.value) else Null
  {
  }

  /** Writing a record out and constructing it again gives the same record:
      the schema admits every record the model can hold. */
  lemma BuildRoundTrip(lo: LearningObject)
    ensures Build(ToDocument(lo)) == Success(lo)
  {
    var m := ToDocument(lo).entries;
    DocumentFields(lo);
    StrItemsRoundTrip(lo.prerequisites, "prerequisites", 0);
    StrItemsRoundTrip(lo.roles, "roles", 0);
    EvidenceItemsRoundTrip(lo.evidence, 0);
    TypeNameRoundTrip(lo.loType);
    assert StrField(m, "id", []) == Success(lo.id);
    assert StrField(m, "title", []) == Success(lo.title);
    assert StrField(m, "description", []) == Success(lo.description);
    assert StrListField(m, "prerequisites") == Success(lo.prerequisites);
    assert StrListField(m, "roles") == Success(lo.roles);
    assert EvidenceListField(m) == Success(lo.evidence);
    assert SkillField(m) == Success(lo.skillLevel);
    assert TypeField(m) == Success(lo.loType);
  }

  /** A document holding only the four required fields gets every default. */
  lemma RequiredFieldsSuffice(id: string, t: LOType, title: string, description: string)
    ensures Build(Mapping(map["id" := Str(id), "type" := Str(TypeName(t)),
                              "title" := Str(title), "description" := Str(description)]))
            == Success(LearningObject(id, t, title, description, [], [], [], None))
  {
  }

  /** Dropping any one required field makes construction fail. */
  lemma RequiredFieldsNeeded(doc: Value, key: string)
    requires doc.Mapping? && key in doc.entries
    requires key == "id" || key == "type" || key == "title" || key == "description"
    ensures Build(Mapping(doc.entries - {key})).Failure?
  {
  }
}
