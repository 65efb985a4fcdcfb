/**
 * What `yaml.safe_load` hands back for one knowledge file, and the directory
 * walk that produces the files.  Parsing itself is not modelled: every walk
 * entry carries the outcome of parsing its file.
 */
module Documents {
  import opened Wrappers
  import Strings

  /** A loaded YAML value.  Mapping keys are strings; floats, dates and
      non-string keys are not modelled. */
  datatype Value =
    | Null
    | Bool(b: bool)
    | Int(i: int)
    | Str(s: string)
    | List(items: seq<Value>)
    | Mapping(entries: map<string, Value>)
  {
    predicate IsScalar() { !List? && !Mapping? }
  }

  /** A value Python can use as a dictionary key or set member: anything
      but a list or a mapping.  (Python also identifies `True` with `1` and
      `False` with `0` as keys; that is not modelled.) */
  predicate Hashable(v: Value) {
    v.IsScalar()
  }

  /** The outcome of opening and parsing one file. */
  datatype Loaded = ParseFailed(message: string) | Parsed(doc: Value)

  /** One file met by `os.walk`: its base name and what parsing it gives. */
  datatype WalkEntry = WalkEntry(name: string, loaded: Loaded)

  /** The extension filter every walk of the knowledge directory applies. */
  predicate IsRecordFile(name: string) {
    Strings.EndsWith(name, ".yml") || Strings.EndsWith(name, ".yaml")
  }

  /** `data.get(key, default)` on a mapping. */
  function GetOr(m: map<string, Value>, key: string, default: Value): (r: Value)
    ensures key in m ==> r == m[key]
    ensures key !in m ==> r == default
  {
    if key in m then m[key] else default
  }

  /** Python's `needle in data` for a string needle; None when Python raises
      a TypeError (a null, boolean or integer document). */
  function PyContains(data: Value, needle: string): (r: Option<bool>)
    ensures r.None? <==> data.IsScalar() && !data.Str?
    ensures data.Mapping? ==> r == Some(needle in data.entries)
    ensures data.Str? ==> r == Some(Strings.Contains(data.s, needle))
    ensures data.List? ==> r == Some(Str(needle) in data.items)
  {
    match data
    case Mapping(m) => Some(needle in m)
    case Str(s) => Some(Strings.Contains(s, needle))
    case List(xs) => Some(Str(needle) in xs)
    case _ => None
  }

  /** `lo.get("prerequisites", [])`. */
  function PrereqValue(doc: Value): Value {
    if doc.Mapping? then GetOr(doc.entries, "prerequisites", List([])) else List([])
  }

  /** The prerequisites value of a raw record can be iterated: a list or a
      string (whose characters are then the items).  Anything else raises a
      TypeError, except a mapping, which Python iterates by key and which
      is not modelled. */
  predicate PrereqsListed(doc: Value) {
    var v := PrereqValue(doc);
    v.List? || v.Str?
  }

  /** Iterable as above, and every item can also be looked up in a set. */
  predicate PrereqsIterable(doc: Value) {
    var v := PrereqValue(doc);
    (v.List? && forall x | x in v.items :: Hashable(x)) || v.Str?
  }

  /** What `for prereq in lo.get("prerequisites", [])` iterates over: nothing
      when the key is absent, the items of a list, and one one-character
      string per character of a string. */
  function Prereqs(doc: Value): (r: seq<Value>)
    ensures doc.Mapping? && "prerequisites" !in doc.entries ==> r == []
    ensures doc.Mapping? && "prerequisites" in doc.entries && doc.entries["prerequisites"].List? ==>
              r == doc.entries["prerequisites"].items
    ensures doc.Mapping? && "prerequisites" in doc.entries && doc.entries["prerequisites"].Str? ==>
              var s := doc.entries["prerequisites"].s;
              |r| == |s| && forall i | 0 <= i < |s| :: r[i] == Str([s[i]])
    ensures PrereqsIterable(doc) ==> forall x | x in r :: Hashable(x)
  {
    match PrereqValue(doc)
    case List(items) => items
    case Str(s) => seq(|s|, i requires 0 <= i < |s| => Str([s[i]]))
    case _ => []
  }
}
