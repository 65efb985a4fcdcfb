/**
 * The static site generator of tools/site_gen/cmd.py, for the parts that
 * compute rather than lay out HTML: which records are loaded, the graph
 * data (one node per record, coloured by its gate status, and one link per
 * prerequisite entry), the rewrite that makes the shared header work one
 * directory down, and the shortened hash shown for each evidence item.
 */
module SiteGen {
  import opened Wrappers
  import Strings
  import opened Documents

  /** A record the generator keeps: `"id" in data` holds.  For a string
      document that is a substring test and for a list a membership test,
      so such documents are kept too; a document for which the test raises
      is skipped. */
  predicate Keeps(e: WalkEntry) {
    IsRecordFile(e.name) && e.loaded.Parsed? && PyContains(e.loaded.doc, "id") == Some(true)
  }

  /** The records of `walk` that are kept, in walk order. */
  function Kept(walk: seq<WalkEntry>): seq<Value>
    decreases |walk|
  {
    if walk == [] then []
    else
      var n := |walk| - 1;
      Kept(walk[..n]) + (if Keeps(walk[n]) then [walk[n].loaded.doc] else [])
  }

  /** The positions of the walk whose record is kept. */
  function KeptIndices(walk: seq<WalkEntry>): set<nat> {
    set j: nat | j < |walk| && Keeps(walk[j])
  }

  /** Loading keeps duplicates: one record per kept file. */
  lemma {:induction false} KeptLength(walk: seq<WalkEntry>)
    ensures |Kept(walk)| == |KeptIndices(walk)|
    decreases |walk|
  {
    if walk != [] {
      var n := |walk| - 1;
      var front := walk[..n];
      KeptLength(front);
      var last := if Keeps(walk[n]) then {n} else {};
      forall j: nat ensures j in KeptIndices(walk) <==> j in KeptIndices(front) + last {
        if j < n { assert front[j] == walk[j]; }
      }
      assert KeptIndices(walk) == KeptIndices(front) + last;
    }
  }

  /** A document is loaded iff some kept file holds it. */
  lemma {:induction false} KeptMembers(walk: seq<WalkEntry>, x: Value)
    ensures x in Kept(walk) <==> exists j | 0 <= j < |walk| :: Keeps(walk[j]) && walk[j].loaded.doc == x
    decreases |walk|
  {
    if walk != [] {
      var n := |walk| - 1;
      var front := walk[..n];
      KeptMembers(front, x);
      if x in Kept(walk) && x !in Kept(front) {
        assert Keeps(walk[n]) && walk[n].loaded.doc == x;
      }
      if j :| 0 <= j < |walk| && Keeps(walk[j]) && walk[j].loaded.doc == x {
        if j < n { assert front[j] == walk[j]; }
      }
    }
  }

  // ---------------------------------------------------------------------
  // The graph
  // ---------------------------------------------------------------------

  datatype Node = Node(id: Value, title: Value, loType: Value, status: Value, color: string)

  datatype Link = Link(source: Value, target: Value)

  const Green := "#4caf50"
  const Orange := "#ff9800"
  const Red := "#f44336"

  /** The node colour for a status. */
  function Color(status: Value): (r: string)
    ensures r == Green <==> status == Str("verified")
    ensures r == Orange <==> status == Str("needs_review")
    ensures r == Red <==> status != Str("verified") && status != Str("needs_review")
  {
    if status == Str("verified") then Green
    else if status == Str("needs_review") then Orange
    else Red
  }

  /** `self.status.get(lo["id"], "unknown")`: status.json's keys are
      strings, so an id of any other type is never found. */
  function StatusOf(statusMap: map<string, Value>, id: Value): (r: Value)
    ensures id.Str? && id.s in statusMap ==> r == statusMap[id.s]
    ensures !(id.Str? && id.s in statusMap) ==> r == Str("unknown")
  {
    if id.Str? && id.s in statusMap then statusMap[id.s] else Str("unknown")
  }

  /** A record `generate_graph_json` can read: a mapping with `id`, `title`
      and `type`, an id `dict.get` can hash, and prerequisites it can
      iterate (otherwise the method raises).  The prerequisite entries
      themselves may be anything: each is only copied into a link. */
  predicate GraphReady(lo: Value) {
    && lo.Mapping? && "id" in lo.entries && "title" in lo.entries && "type" in lo.entries
    && Hashable(lo.entries["id"]) && PrereqsListed(lo)
  }

  function NodeOf(statusMap: map<string, Value>, lo: Value): Node
    requires GraphReady(lo)
  {
    var status := StatusOf(statusMap, lo.entries["id"]);
    Node(lo.entries["id"], lo.entries["title"], lo.entries["type"], status, Color(status))
  }

  /** The links contributed by one record: one per prerequisite entry,
      whether or not it names a loaded record. */
  function LinksOfOne(lo: Value): (r: seq<Link>)
    requires GraphReady(lo)
    ensures |r| == |Prereqs(lo)|
    ensures forall j | 0 <= j < |r| :: r[j] == Link(Prereqs(lo)[j], lo.entries["id"])
  {
    var ps := Prereqs(lo);
    seq(|ps|, j requires 0 <= j < |ps| => Link(ps[j], lo.entries["id"]))
  }

  /** All links, record by record. */
  function LinksOf(los: seq<Value>): seq<Link>
    requires forall k | 0 <= k < |los| :: GraphReady(los[k])
    decreases |los|
  {
    if los == [] then [] else LinksOf(los[..|los| - 1]) + LinksOfOne(los[|los| - 1])
  }

  /** The number of prerequisite entries of the records: a reference count. */
  function PrereqTotal(los: seq<Value>): nat
    decreases |los|
  {
    if los == [] then 0 else |Prereqs(los[0])| + PrereqTotal(los[1..])
  }

  // ---------------------------------------------------------------------
  // The generator object
  // ---------------------------------------------------------------------

  /** SiteGenerator: the status map read from the gate's status.json
      (empty when the file is absent) and the loaded records. */
  class SiteGenerator {
    var status: map<string, Value>
    var los: seq<Value>

    constructor(statusFile: Option<map<string, Value>>, walk: seq<WalkEntry>)
      ensures status == (if statusFile.Some? then statusFile.value else map[])
      ensures los == Kept(walk)
    {
      status := if statusFile.Some? then statusFile.value else map[];
      los := [];
      new;
      LoadLos(walk);
    }

    /** load_los(): appends every kept record, in walk order, duplicates
        included. */
    method LoadLos(walk: seq<WalkEntry>)
      modifies this
      ensures los == old(los) + Kept(walk)
      ensures status == old(status)
    {
      ghost var los0 := los;
      var i := 0;
      while i < |walk|
        invariant 0 <= i <= |walk|
        invariant los == los0 + Kept(walk[..i])
        invariant status == old(status)
      {
        var e := walk[i];
        assert walk[..i + 1][..i] == walk[..i];
        if IsRecordFile(e.name) && e.loaded.Parsed? {
          var contains := PyContains(e.loaded.doc, "id");
          if contains == Some(true) {
            los := los + [e.loaded.doc];
          }
        }
        i := i + 1;
      }
      assert walk[..i] == walk;
    }

    /** generate_graph_json(): the `nodes` and `links` of graph.json. */
    method GenerateGraphJson() returns (nodes: seq<Node>, links: seq<Link>)
      requires forall k | 0 <= k < |los| :: GraphReady(los[k])
      ensures |nodes| == |los|
      ensures forall k | 0 <= k < |los| :: nodes[k] == NodeOf(status, los[k])
      ensures links == LinksOf(los)
    {
      nodes, links := Graph(status, los);
    }
  }

  /** The two loops of generate_graph_json over the loaded records. */
  method Graph(statusMap: map<string, Value>, los: seq<Value>) returns (nodes: seq<Node>, links: seq<Link>)
    requires forall k | 0 <= k < |los| :: GraphReady(los[k])
    ensures |nodes| == |los|
    ensures forall k | 0 <= k < |los| :: nodes[k] == NodeOf(statusMap, los[k])
    ensures links == LinksOf(los)
  {
    nodes, links := [], [];
    var i := 0;
    while i < |los|
      invariant 0 <= i <= |los|
      invariant |nodes| == i
      invariant forall k | 0 <= k < i :: nodes[k] == NodeOf(statusMap, los[k])
      invariant links == LinksOf(los[..i])
    {
      var lo := los[i];
      var id := lo.entries["id"];
      var status := StatusOf(statusMap, id);
      var node := Node(id, lo.entries["title"], lo.entries["type"], status, Color(status));
      LinksOfStep(los, i);
      links := AppendLinks(links, lo);
      NodesStep(statusMap, los, i, nodes, node);
      nodes := nodes + [node];
      i := i + 1;
    }
    assert los[..i] == los;
  }

  lemma NodesStep(statusMap: map<string, Value>, los: seq<Value>, i: nat, nodes: seq<Node>, node: Node)
    requires i < |los| && |nodes| == i
    requires forall k | 0 <= k < |los| :: GraphReady(los[k])
    requires forall k | 0 <= k < i :: nodes[k] == NodeOf(statusMap, los[k])
    requires node == NodeOf(statusMap, los[i])
    ensures forall k | 0 <= k < i + 1 :: (nodes + [node])[k] == NodeOf(statusMap, los[k])
  {
  }

  lemma LinksOfStep(los: seq<Value>, i: nat)
    requires i < |los|
    requires forall k | 0 <= k < |los| :: GraphReady(los[k])
    ensures LinksOf(los[..i + 1]) == LinksOf(los[..i]) + LinksOfOne(los[i])
  {
    assert los[..i + 1][..i] == los[..i];
  }

  /** The inner loop of generate_graph_json: one link per prerequisite
      entry of `lo`, appended in order. */
  method AppendLinks(links0: seq<Link>, lo: Value) returns (links: seq<Link>)
    requires GraphReady(lo)
    ensures links == links0 + LinksOfOne(lo)
  {
    var id := lo.entries["id"];
    var ps := Prereqs(lo);
    links := links0;
    var j := 0;
    while j < |ps|
      invariant 0 <= j <= |ps|
      invariant links == links0 + LinksOfOne(lo)[..j]
    {
      assert LinksOfOne(lo)[..j + 1] == LinksOfOne(lo)[..j] + [Link(ps[j], id)];
      links := links + [Link(ps[j], id)];
      j := j + 1;
    }
    assert LinksOfOne(lo)[..j] == LinksOfOne(lo);
  }

  // ---------------------------------------------------------------------
  // Properties of the graph
  // ---------------------------------------------------------------------

  lemma {:induction false} PrereqTotalAppend(los: seq<Value>, lo: Value)
    ensures PrereqTotal(los + [lo]) == PrereqTotal(los) + |Prereqs(lo)|
    decreases |los|
  {
    if los != [] {
      assert (los + [lo])[1..] == los[1..] + [lo];
      PrereqTotalAppend(los[1..], lo);
    } else {
      assert [lo][1..] == [];
    }
  }

  /** One link per prerequisite entry, dangling ones included: the link
      count is the total prerequisite count. */
  lemma {:induction false} LinkCountIsPrereqTotal(los: seq<Value>)
    requires forall k | 0 <= k < |los| :: GraphReady(los[k])
    ensures |LinksOf(los)| == PrereqTotal(los)
    decreases |los|
  {
    if los != [] {
      var n := |los| - 1;
      LinkCountIsPrereqTotal(los[..n]);
      PrereqTotalAppend(los[..n], los[n]);
      assert los[..n] + [los[n]] == los;
    }
  }

  /** The record's `id` field is `id`. */
  predicate HasId(lo: Value, id: Value) {
    lo.Mapping? && "id" in lo.entries && lo.entries["id"] == id
  }

  /** A record with id `t` that lists `p` among its prerequisites. */
  predicate ListsPrereq(los: seq<Value>, l: Link) {
    exists k | 0 <= k < |los| ::
      HasId(los[k], l.target) && l.source in Prereqs(los[k])
  }

  /** The links of one record are its prerequisites, each pointing at it. */
  lemma LinkOfOneIff(lo: Value, l: Link)
    requires GraphReady(lo)
    ensures l in LinksOfOne(lo) <==> l.target == lo.entries["id"] && l.source in Prereqs(lo)
  {
    var one := LinksOfOne(lo);
    if l in one {
      var j :| 0 <= j < |one| && one[j] == l;
      assert l.source == Prereqs(lo)[j];
    }
    if l.target == lo.entries["id"] && l.source in Prereqs(lo) {
      var j :| 0 <= j < |Prereqs(lo)| && Prereqs(lo)[j] == l.source;
      assert one[j] == l;
    }
  }

  /** Some record lists the link exactly when an earlier one or the last one does. */
  lemma ListsPrereqStep(los: seq<Value>, l: Link)
    requires los != []
    requires forall k | 0 <= k < |los| :: GraphReady(los[k])
    requires GraphReady(los[|los| - 1])
    ensures ListsPrereq(los, l) <==>
              ListsPrereq(los[..|los| - 1], l) ||
              (l.target == los[|los| - 1].entries["id"] && l.source in Prereqs(los[|los| - 1]))
  {
    var n := |los| - 1;
    var front := los[..n];
    if ListsPrereq(los, l) {
      var k :| 0 <= k < |los| && HasId(los[k], l.target) && l.source in Prereqs(los[k]);
      if k < n {
        assert front[k] == los[k];
        assert ListsPrereq(front, l);
      }
    }
    if ListsPrereq(front, l) {
      var k :| 0 <= k < n && HasId(front[k], l.target) && l.source in Prereqs(front[k]);
      assert front[k] == los[k];
      assert ListsPrereq(los, l);
    }
    if l.target == los[n].entries["id"] && l.source in Prereqs(los[n]) {
      assert HasId(los[n], l.target);
    }
  }

  /** A link from `p` to `t` exists exactly when some record with id `t`
      lists `p`. */
  lemma {:induction false} LinkIffPrereqEntry(los: seq<Value>, l: Link)
    requires forall k | 0 <= k < |los| :: GraphReady(los[k])
    ensures l in LinksOf(los) <==> ListsPrereq(los, l)
    decreases |los|
  {
    if los != [] {
      var n := |los| - 1;
      LinkIffPrereqEntry(los[..n], l);
      LinkOfOneIff(los[n], l);
      ListsPrereqStep(los, l);
      assert LinksOf(los) == LinksOf(los[..n]) + LinksOfOne(los[n]);
    }
  }

  /** Every status other than `verified` and `needs_review` is shown red,
      `invalid` and a record the gate never saw among them. */
  lemma UnknownAndInvalidAreRed(statusMap: map<string, Value>, id: Value)
    requires !(id.Str? && id.s in statusMap) || statusMap[id.s] == Str("invalid")
    ensures Color(StatusOf(statusMap, id)) == Red
  {
  }

  // ---------------------------------------------------------------------
  // Page details
  // ---------------------------------------------------------------------

  const Href := "href=\""
  const HrefUp := "href=\"../"

  /** The header of a record page: the shared header with every `href="`
      pointing one directory up. */
  function RelativizeLinks(header: string): string {
    Strings.Replace(header, Href, HrefUp)
  }

  /** An `h`-free text is a prefix of the rewritten text exactly when it
      is a prefix of the original: the rewrite only touches text that
      starts with `h`. */
  lemma {:induction false} HFreePrefix(s: string, w: string)
    requires 'h' !in w
    ensures (|w| <= |RelativizeLinks(s)| && RelativizeLinks(s)[..|w|] == w)
        <==> (|w| <= |s| && s[..|w|] == w)
    decreases |s|
  {
    var r := RelativizeLinks(s);
    if w == [] || |s| < |Href| {
      assert w == [] || r == s;
    } else {
      assert r[0] == s[0];
      if s[0] == 'h' {
        assert w[0] != 'h' by { assert w[0] in w; }
      } else {
        assert s[..|Href|] != Href by { assert s[..|Href|][0] != Href[0]; }
        var t := RelativizeLinks(s[1..]);
        assert r == [s[0]] + t;
        assert 'h' !in w[1..];
        HFreePrefix(s[1..], w[1..]);
        if |w| <= |s| {
          assert s[..|w|] == [s[0]] + s[1..][..|w| - 1];
        }
        if |w| <= |r| {
          assert r[..|w|] == [s[0]] + t[..|w| - 1];
        }
        assert w == [w[0]] + w[1..];
      }
    }
  }

  /** Undoing the rewrite gives the header back: every `href="../` of the
      result is one the rewrite produced. */
  lemma {:induction false} RelativizeRoundTrip(header: string)
    ensures Strings.Replace(RelativizeLinks(header), HrefUp, Href) == header
    decreases |header|
  {
    var s := header;
    var r := RelativizeLinks(s);
    if |s| < |Href| {
      assert r == s;
    } else if s[..|Href|] == Href {
      var rest := s[|Href|..];
      RelativizeRoundTrip(rest);
      assert r == HrefUp + RelativizeLinks(rest);
      assert (HrefUp + RelativizeLinks(rest))[..|HrefUp|] == HrefUp;
      assert (HrefUp + RelativizeLinks(rest))[|HrefUp|..] == RelativizeLinks(rest);
      assert s == Href + rest;
    } else {
      var t := RelativizeLinks(s[1..]);
      RelativizeRoundTrip(s[1..]);
      assert r == [s[0]] + t;
      if |r| < |HrefUp| {
        assert Strings.Replace(t, HrefUp, Href) == t;
      } else {
        RewriteStartsPlain(s);
        assert r[1..] == t;
      }
    }
  }

  /** Text that does not start with `href="` is not rewritten to start with
      `href="` (nor, therefore, with `href="../`). */
  lemma RewriteStartsPlain(s: string)
    requires |s| >= |Href| && s[..|Href|] != Href
    ensures var r := RelativizeLinks(s);
            |r| >= |Href| ==> r[..|Href|] != Href
    ensures var r := RelativizeLinks(s);
            |r| >= |HrefUp| ==> r[..|HrefUp|] != HrefUp
  {
    var r := RelativizeLinks(s);
    var t := RelativizeLinks(s[1..]);
    assert r == [s[0]] + t;
    if |r| >= |Href| {
      if s[0] == 'h' {
        var w := "ref=\"";
        assert s[..|Href|] == [s[0]] + s[1..][..5];
        assert Href == ['h'] + w;
        assert s[1..][..5] != w;
        HFreePrefix(s[1..], w);
        assert t[..5] != w;
        assert r[..|Href|][1..6] == t[..5];
        assert Href[1..6] == w;
      } else {
        assert r[..|Href|][0] != Href[0];
      }
      if |r| >= |HrefUp| {
        assert r[..|HrefUp|][..|Href|] == r[..|Href|];
        assert HrefUp[..|Href|] == Href;
      }
    }
  }

  /** Every `href="` of a rewritten header is followed by `../`. */
  predicate HrefsGoUp(r: string) {
    forall i | 0 <= i <= |r| && Strings.OccursAt(r, Href, i) :: Strings.OccursAt(r, HrefUp, i)
  }

  /** After the rewrite no link is left un-prefixed: wherever `href="` occurs
      in the result, `href="../` occurs. */
  lemma {:induction false} EveryHrefGoesUp(header: string)
    ensures HrefsGoUp(RelativizeLinks(header))
    decreases |header|
  {
    var s := header;
    var r := RelativizeLinks(s);
    if |s| < |Href| {
      assert r == s;
    } else if s[..|Href|] == Href {
      var rest := s[|Href|..];
      EveryHrefGoesUp(rest);
      assert r == HrefUp + RelativizeLinks(rest);
      UpAfterHrefUp(RelativizeLinks(rest));
    } else {
      EveryHrefGoesUp(s[1..]);
      assert r == [s[0]] + RelativizeLinks(s[1..]);
      RewriteStartsPlain(s);
      UpAfterChar(s[0], RelativizeLinks(s[1..]));
    }
  }

  /** Putting `href="../` in front keeps `HrefsGoUp`: no `href="` starts
      inside the prefix after its first character. */
  lemma UpAfterHrefUp(t: string)
    requires HrefsGoUp(t)
    ensures HrefsGoUp(HrefUp + t)
  {
    var r := HrefUp + t;
    NoHrefInsideUp(t);
    forall i | Strings.OccursAt(r, Href, i)
      ensures Strings.OccursAt(r, HrefUp, i)
    {
      if i == 0 {
        assert r[..|HrefUp|] == HrefUp;
      } else {
        assert i >= |HrefUp|;
        var k := i - |HrefUp|;
        assert t[k..k + |Href|] == r[i..i + |Href|];
        assert Strings.OccursAt(t, HrefUp, k);
        assert t[k..k + |HrefUp|] == r[i..i + |HrefUp|];
      }
    }
  }

  /** Only the first character of `href="../` is an `h`, so no `href="`
      starts inside it. */
  lemma NoHrefInsideUp(t: string)
    ensures forall j | 1 <= j < |HrefUp| :: !Strings.OccursAt(HrefUp + t, Href, j)
  {
    forall j | 1 <= j < |HrefUp|
      ensures !Strings.OccursAt(HrefUp + t, Href, j)
    {
      assert (HrefUp + t)[j] == HrefUp[j] != Href[0];
    }
  }

  /** Putting one character in front keeps `HrefsGoUp` when the result does
      not start with `href="`. */
  lemma UpAfterChar(c: char, t: string)
    requires HrefsGoUp(t)
    requires |[c] + t| >= |Href| ==> ([c] + t)[..|Href|] != Href
    ensures HrefsGoUp([c] + t)
  {
    var r := [c] + t;
    forall i | Strings.OccursAt(r, Href, i)
      ensures Strings.OccursAt(r, HrefUp, i)
    {
      assert i != 0;
      var k := i - 1;
      assert t[k..k + |Href|] == r[i..i + |Href|];
      assert Strings.OccursAt(t, HrefUp, k);
      assert t[k..k + |HrefUp|] == r[i..i + |HrefUp|];
    }
  }

  /** `ev['snippet_hash'][:8]`: the first eight characters, or the whole
      hash when it is shorter. */
  function HashPrefix(hash: string): (r: string)
    ensures |r| == if |hash| < 8 then |hash| else 8
    ensures r == hash[..|r|]
  {
    if |hash| < 8 then hash else hash[..8]
  }
}
