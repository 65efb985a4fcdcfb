/**
 * The learning-path planner of tools/path_planner/cmd.py: records are loaded
 * into a dictionary keyed by id, and `plan` linearises them with a
 * depth-first visit that puts every known prerequisite before the record
 * that needs it, starting from the ids in sorted order.
 */
module Planner {
  import Strings
  import opened Documents

  // ---------------------------------------------------------------------
  // The raw records
  // ---------------------------------------------------------------------

  /** `lo["id"]` of a loaded record (Null when it has none). */
  function IdOf(doc: Value): Value {
    if doc.Mapping? && "id" in doc.entries then doc.entries["id"] else Null
  }

  /** The loaded records as a dictionary from id to record. */
  type Los = map<Value, Value>

  /** `los[data["id"]] = data` is done for a knowledge file whose document
      is a mapping with a hashable `id`; every other file is skipped, the
      exception (if any) being swallowed. */
  predicate Keeps(e: WalkEntry) {
    && IsRecordFile(e.name) && e.loaded.Parsed? && e.loaded.doc.Mapping?
    && "id" in e.loaded.doc.entries && Hashable(e.loaded.doc.entries["id"])
  }

  /** The dictionary after loading the files of `walk` into `los`. */
  function LoadInto(los: Los, walk: seq<WalkEntry>): Los
    decreases |walk|
  {
    if walk == [] then los
    else
      var n := |walk| - 1;
      var front := LoadInto(los, walk[..n]);
      if Keeps(walk[n]) then front[IdOf(walk[n].loaded.doc) := walk[n].loaded.doc] else front
  }

  /** Every record is filed under its own id. */
  predicate FiledById(los: Los) {
    forall k | k in los :: los[k].Mapping? && "id" in los[k].entries && los[k].entries["id"] == k
  }

  // ---------------------------------------------------------------------
  // What plan needs
  // ---------------------------------------------------------------------

  /** `rank` witnesses that the known-prerequisite relation is acyclic: a
      known prerequisite always has a smaller rank than its record. */
  predicate Ranked(los: Los, rank: map<Value, nat>) {
    forall k | k in los ::
      k in rank && forall p | p in Prereqs(los[k]) && p in los :: p in rank && rank[p] < rank[k]
  }

  /** What `plan` needs to return: string ids (sorting mixed types raises),
      iterable prerequisites, and no prerequisite cycle. */
  predicate PlanReady(los: Los, rank: map<Value, nat>) {
    && (forall k | k in los :: k.Str?)
    && (forall k | k in los :: PrereqsIterable(los[k]))
    && Ranked(los, rank)
  }

  /** No record has a prerequisite that is loaded. */
  predicate NoKnownPrereqs(los: Los) {
    forall k | k in los :: forall p | p in Prereqs(los[k]) :: p !in los
  }

  /** The ids of a path (the `steps` of path.json). */
  function Steps(path: seq<Value>): (r: seq<Value>)
    ensures |r| == |path|
    ensures forall k | 0 <= k < |path| :: r[k] == IdOf(path[k])
  {
    seq(|path|, k requires 0 <= k < |path| => IdOf(path[k]))
  }

  predicate NoDuplicates(ids: seq<Value>) {
    forall i, j | 0 <= i < j < |ids| :: ids[i] != ids[j]
  }

  /** Every known prerequisite of a step appears at an earlier step. */
  predicate PrereqsFirst(los: Los, path: seq<Value>) {
    forall k | 0 <= k < |path| ::
      forall p | p in Prereqs(path[k]) && p in los :: p in Steps(path[..k])
  }

  /** Python's `<` on two string ids. */
  predicate IdLess(a: Value, b: Value)
    requires a.Str? && b.Str?
  {
    Strings.Less(a.s, b.s)
  }

  predicate StrictlySorted(ids: seq<Value>) {
    forall i, j | 0 <= i < j < |ids| :: ids[i].Str? && ids[j].Str? && IdLess(ids[i], ids[j])
  }

  // ---------------------------------------------------------------------
  // sorted(self.los.keys())
  // ---------------------------------------------------------------------

  /** A non-empty set of string ids has a least element. */
  lemma {:induction false} LeastIdExists(ids: set<Value>)
    requires ids != {} && forall x | x in ids :: x.Str?
    ensures exists m | m in ids :: forall y | y in ids && y != m :: IdLess(m, y)
    decreases |ids|
  {
    var x :| x in ids;
    var rest := ids - {x};
    if rest == {} {
      assert forall y | y in ids && y != x :: y in rest;
    } else {
      LeastIdExists(rest);
      var m :| m in rest && forall y | y in rest && y != m :: IdLess(m, y);
      if IdLess(x, m) {
        forall y | y in ids && y != x ensures IdLess(x, y) {
          if y != m {
            assert y in rest;
            Strings.LessTransitive(x.s, m.s, y.s);
          }
        }
      } else {
        assert x.s != m.s;
        Strings.LessTotal(x.s, m.s);
        assert forall y | y in ids && y != m :: IdLess(m, y);
      }
    }
  }

  /** `sorted(ids)` for string ids: every id once, in increasing order. */
  method SortIds(ids: set<Value>) returns (sorted: seq<Value>)
    requires forall x | x in ids :: x.Str?
    ensures forall x :: x in sorted <==> x in ids
    ensures StrictlySorted(sorted)
  {
    sorted := [];
    var rest := ids;
    while rest != {}
      invariant rest <= ids
      invariant forall x :: x in sorted <==> x in ids && x !in rest
      invariant StrictlySorted(sorted)
      invariant forall i, y | 0 <= i < |sorted| && y in rest :: IdLess(sorted[i], y)
      decreases |rest|
    {
      LeastIdExists(rest);
      var m :| m in rest && forall y | y in rest && y != m :: IdLess(m, y);
      forall i, y | 0 <= i < |sorted| && y in rest - {m} ensures IdLess(sorted[i], y) {
        Strings.LessTransitive(sorted[i].s, m.s, y.s);
      }
      sorted := sorted + [m];
      rest := rest - {m};
    }
  }

  /** What `visit` keeps true of `visited` and `path`: the path holds
      loaded records, each once, `visited` is the set of their ids, and
      each record's known prerequisites come before it. */
  ghost predicate Inv(los: Los, visited: set<Value>, path: seq<Value>) {
    && (forall k | 0 <= k < |path| :: IdOf(path[k]) in los && path[k] == los[IdOf(path[k])])
    && (forall x :: x in visited <==> x in Steps(path))
    && NoDuplicates(Steps(path))
    && PrereqsFirst(los, path)
  }

  /** A chain of loaded records, each listing the next as a prerequisite. */
  ghost predicate IsChain(los: Los, chain: seq<Value>) {
    && |chain| >= 1
    && (forall k | 0 <= k < |chain| :: chain[k] in los)
    && (forall k | 0 <= k < |chain| - 1 :: chain[k + 1] in Prereqs(los[chain[k]]))
  }

  /** `b` is `a`, or a known prerequisite of a known prerequisite ... of `a`:
      what `visit(a)` can reach. */
  ghost predicate Reaches(los: Los, a: Value, b: Value) {
    exists chain | IsChain(los, chain) :: chain[0] == a && chain[|chain| - 1] == b
  }

  /** The measure that makes `visit` terminate. */
  ghost function Rk(los: Los, rank: map<Value, nat>, id: Value): nat {
    if id in los && id in rank then rank[id] + 1 else 0
  }

  // ---------------------------------------------------------------------
  // The planner object
  // ---------------------------------------------------------------------

  /** PathPlanner: the loaded records.  (The context file it also reads is
      only echoed into the output and is not modelled.) */
  class PathPlanner {
    var los: Los

    predicate Valid()
      reads this
    {
      FiledById(los)
    }

    /** `PathPlanner(context_path)`: starts empty and loads the walk. */
    constructor(walk: seq<WalkEntry>)
      ensures los == LoadInto(map[], walk)
      ensures Valid()
    {
      los := map[];
      new;
      LoadLos(walk);
    }

    /** load_los(): every kept file is filed under its id, a later one
        replacing an earlier one with the same id. */
    method LoadLos(walk: seq<WalkEntry>)
      modifies this
      ensures los == LoadInto(old(los), walk)
      ensures old(Valid()) ==> Valid()
    {
      ghost var los0 := los;
      var i := 0;
      while i < |walk|
        invariant 0 <= i <= |walk|
        invariant los == LoadInto(los0, walk[..i])
        invariant FiledById(los0) ==> FiledById(los)
      {
        var e := walk[i];
        assert walk[..i + 1][..i] == walk[..i];
        if IsRecordFile(e.name) && e.loaded.Parsed? {
          var data := e.loaded.doc;
          if data.Mapping? && "id" in data.entries && Hashable(data.entries["id"]) {
            los := los[data.entries["id"] := data];
          }
        }
        i := i + 1;
      }
      assert walk[..i] == walk;
    }

    /** Appending a loaded, unvisited record whose known prerequisites are all
        visited keeps the invariant. */
    lemma AppendKeepsInv(visited: set<Value>, path: seq<Value>, id: Value)
      requires Valid() && Inv(los, visited, path)
      requires id in los && id !in visited
      requires forall p | p in Prereqs(los[id]) && p in los :: p in visited
      ensures Inv(los, visited + {id}, path + [los[id]])
    {
      var path' := path + [los[id]];
      assert Steps(path') == Steps(path) + [id];
      forall k | 0 <= k < |path| ensures path'[..k] == path[..k] {}
      assert path'[..|path|] == path;
    }

    /** visit(lo_id), returning the new `visited` and `path`. */
    method Visit(id: Value, ghost rank: map<Value, nat>, visited: set<Value>, path: seq<Value>)
      returns (visited': set<Value>, path': seq<Value>)
      requires Valid() && PlanReady(los, rank)
      requires Hashable(id)
      requires Inv(los, visited, path)
      ensures Inv(los, visited', path')
      ensures visited <= visited'
      ensures path <= path'
      ensures id in los ==> id in visited'
      ensures forall x | x in visited' && x !in visited :: x in los && Rk(los, rank, x) <= Rk(los, rank, id)
      ensures id in visited || id !in los ==> visited' == visited && path' == path
      ensures id in los && id !in visited && (forall p | p in Prereqs(los[id]) :: p !in los) ==>
                path' == path + [los[id]]
      ensures forall x | x in visited' && x !in visited :: Reaches(los, id, x)
      ensures forall x | Reaches(los, id, x) :: x in visited'
      decreases Rk(los, rank, id), 1
    {
      visited', path' := visited, path;
      if id in visited {
        ReachedAreVisited(los, visited, path, id);
        return;
      }
      if id !in los {
        forall x | Reaches(los, id, x) ensures false {
          ReachesKnown(los, id, x);
        }
        return;
      }
      visited', path' := VisitPrereqs(id, rank, visited, path);
      ghost var mid := visited';
      AppendKeepsInv(visited', path', id);
      visited', path' := visited' + {id}, path' + [los[id]];
      VisitAddsReached(los, id, visited, mid, visited');
      ReachedAreVisited(los, visited', path', id);
    }

    /** The loop of `visit` over the prerequisites of a loaded, unvisited
        record: afterwards every known one is visited, and the record is
        not. */
    method VisitPrereqs(id: Value, ghost rank: map<Value, nat>, visited: set<Value>, path: seq<Value>)
      returns (visited': set<Value>, path': seq<Value>)
      requires Valid() && PlanReady(los, rank)
      requires id in los && id !in visited
      requires Inv(los, visited, path)
      ensures Inv(los, visited', path')
      ensures visited <= visited'
      ensures path <= path'
      ensures id !in visited'
      ensures forall x | x in visited' && x !in visited :: x in los && Rk(los, rank, x) < Rk(los, rank, id)
      ensures forall p | p in Prereqs(los[id]) && p in los :: p in visited'
      ensures (forall p | p in Prereqs(los[id]) :: p !in los) ==> visited' == visited && path' == path
      ensures forall x | x in visited' && x !in visited :: Reaches(los, id, x)
      decreases Rk(los, rank, id), 0
    {
      visited', path' := visited, path;
      var prereqs := Prereqs(los[id]);
      var j := 0;
      while j < |prereqs|
        invariant 0 <= j <= |prereqs|
        invariant Inv(los, visited', path')
        invariant visited <= visited'
        invariant path <= path'
        invariant forall x | x in visited' && x !in visited :: x in los && Rk(los, rank, x) < Rk(los, rank, id)
        invariant forall i | 0 <= i < j && prereqs[i] in los :: prereqs[i] in visited'
        invariant (forall p | p in prereqs :: p !in los) ==> visited' == visited && path' == path
        invariant forall x | x in visited' && x !in visited :: Reaches(los, id, x)
      {
        var p := prereqs[j];
        PrereqRanksLower(rank, id, p);
        ghost var before := visited';
        visited', path' := Visit(p, rank, visited', path');
        VisitedPrefixGrows(los, prereqs, j, before, visited');
        ReachGrows(los, id, p, visited, before, visited');
        j := j + 1;
      }
      forall p | p in prereqs && p in los ensures p in visited' {
        var i :| 0 <= i < |prereqs| && prereqs[i] == p;
      }
    }

    /** A prerequisite of a loaded record has a smaller measure. */
    lemma PrereqRanksLower(rank: map<Value, nat>, id: Value, p: Value)
      requires PlanReady(los, rank)
      requires id in los && p in Prereqs(los[id])
      ensures Rk(los, rank, p) < Rk(los, rank, id)
      ensures Hashable(p)
    {
    }

    /** plan(): every loaded record exactly once, each after its known
        prerequisites, unknown prerequisite ids skipped; with no known
        prerequisites at all, the records come in sorted id order. */
    method Plan(ghost rank: map<Value, nat>) returns (path: seq<Value>)
      requires Valid() && PlanReady(los, rank)
      ensures |path| == |los|
      ensures forall k | 0 <= k < |path| :: IdOf(path[k]) in los && path[k] == los[IdOf(path[k])]
      ensures forall id | id in los :: id in Steps(path)
      ensures NoDuplicates(Steps(path))
      ensures PrereqsFirst(los, path)
      ensures NoKnownPrereqs(los) ==> StrictlySorted(Steps(path))
    {
      var sortedIds := SortIds(los.Keys);
      var visited: set<Value> := {};
      path := [];
      var i := 0;
      while i < |sortedIds|
        invariant 0 <= i <= |sortedIds|
        invariant Inv(los, visited, path)
        invariant forall j | 0 <= j < i :: sortedIds[j] in visited
        invariant NoKnownPrereqs(los) ==> Steps(path) == sortedIds[..i]
      {
        visited, path := PlanStep(sortedIds, i, rank, visited, path);
        i := i + 1;
      }
      PlanDone(los, sortedIds, visited, path);
    }

    /** One turn of the loop of `plan`: visit the `i`-th id in sorted order.
        With no known prerequisites the visit appends just that record,
        which is not yet visited because the ids before it are smaller. */
    method PlanStep(sortedIds: seq<Value>, i: nat, ghost rank: map<Value, nat>, visited: set<Value>, path: seq<Value>)
      returns (visited': set<Value>, path': seq<Value>)
      requires Valid() && PlanReady(los, rank)
      requires i < |sortedIds|
      requires forall x :: x in sortedIds <==> x in los
      requires StrictlySorted(sortedIds)
      requires Inv(los, visited, path)
      requires forall j | 0 <= j < i :: sortedIds[j] in visited
      requires NoKnownPrereqs(los) ==> Steps(path) == sortedIds[..i]
      ensures Inv(los, visited', path')
      ensures forall j | 0 <= j <= i :: sortedIds[j] in visited'
      ensures NoKnownPrereqs(los) ==> Steps(path') == sortedIds[..i + 1]
    {
      var lid := sortedIds[i];
      assert lid in los;
      ghost var alone := NoKnownPrereqs(los);
      if alone {
        NextSortedIsFresh(sortedIds, i, visited, Steps(path));
        assert forall p | p in Prereqs(los[lid]) :: p !in los;
      }
      visited', path' := Visit(lid, rank, visited, path);
      if alone {
        SortedStep(los, sortedIds, i, path);
      }
    }
  }

  /** A chain starts and ends at loaded records. */
  lemma ReachesKnown(los: Los, a: Value, b: Value)
    requires Reaches(los, a, b)
    ensures a in los && b in los
  {
    var c :| IsChain(los, c) && c[0] == a && c[|c| - 1] == b;
  }

  /** A loaded record reaches itself, and reaches whatever its prerequisites
      reach. */
  lemma ReachPrepend(los: Los, a: Value, p: Value, x: Value)
    requires a in los && p in Prereqs(los[a]) && Reaches(los, p, x)
    ensures Reaches(los, a, x)
  {
    var c :| IsChain(los, c) && c[0] == p && c[|c| - 1] == x;
    var c' := [a] + c;
    assert forall k | 1 <= k < |c'| :: c'[k] == c[k - 1];
    assert IsChain(los, c');
  }

  /** A visited record's known prerequisites are visited. */
  lemma VisitedClosed(los: Los, visited: set<Value>, path: seq<Value>, a: Value, p: Value)
    requires Inv(los, visited, path)
    requires a in visited && p in los && p in Prereqs(los[a])
    ensures p in visited
  {
    var m :| 0 <= m < |path| && Steps(path)[m] == a;
    assert p in Prereqs(path[m]);
    var q :| 0 <= q < m && Steps(path[..m])[q] == p;
    assert Steps(path)[q] == p;
  }

  /** Whatever a visited record reaches is visited. */
  lemma ReachedAreVisited(los: Los, visited: set<Value>, path: seq<Value>, a: Value)
    requires Inv(los, visited, path) && a in visited
    ensures forall x | Reaches(los, a, x) :: x in visited
  {
    forall x | Reaches(los, a, x) ensures x in visited {
      var c :| IsChain(los, c) && c[0] == a && c[|c| - 1] == x;
      var k := 0;
      while k < |c| - 1
        invariant 0 <= k < |c| && c[k] in visited
      {
        VisitedClosed(los, visited, path, c[k], c[k + 1]);
        k := k + 1;
      }
    }
  }

  /** What one prerequisite's visit adds is reached from the record. */
  lemma ReachGrows(los: Los, id: Value, p: Value, visited: set<Value>, before: set<Value>, after: set<Value>)
    requires id in los && p in Prereqs(los[id])
    requires forall x | x in before && x !in visited :: Reaches(los, id, x)
    requires forall x | x in after && x !in before :: Reaches(los, p, x)
    ensures forall x | x in after && x !in visited :: Reaches(los, id, x)
  {
    forall x | x in after && x !in visited ensures Reaches(los, id, x) {
      if x !in before {
        ReachPrepend(los, id, p, x);
      }
    }
  }

  /** What a visit adds is the record itself or what its prerequisites'
      visits added. */
  lemma VisitAddsReached(los: Los, id: Value, visited: set<Value>, mid: set<Value>, after: set<Value>)
    requires id in los
    requires forall x | x in mid && x !in visited :: Reaches(los, id, x)
    requires after == mid + {id}
    ensures forall x | x in after && x !in visited :: Reaches(los, id, x)
  {
    assert IsChain(los, [id]);
  }

  /** Appending the record of the next id in sorted order extends the
      sorted prefix by one. */
  lemma SortedStep(los: Los, sortedIds: seq<Value>, i: nat, path: seq<Value>)
    requires FiledById(los)
    requires i < |sortedIds| && sortedIds[i] in los
    requires Steps(path) == sortedIds[..i]
    ensures Steps(path + [los[sortedIds[i]]]) == sortedIds[..i + 1]
  {
    StepsAppend(path, los[sortedIds[i]]);
    assert sortedIds[..i + 1] == sortedIds[..i] + [sortedIds[i]];
  }

  /** Once every id in sorted order is visited, the path is the whole plan. */
  lemma PlanDone(los: Los, sortedIds: seq<Value>, visited: set<Value>, path: seq<Value>)
    requires Inv(los, visited, path)
    requires forall x :: x in sortedIds <==> x in los
    requires forall j | 0 <= j < |sortedIds| :: sortedIds[j] in visited
    requires StrictlySorted(sortedIds)
    requires NoKnownPrereqs(los) ==> Steps(path) == sortedIds[..|sortedIds|]
    ensures |path| == |los|
    ensures forall id | id in los :: id in Steps(path)
    ensures NoKnownPrereqs(los) ==> StrictlySorted(Steps(path))
  {
    assert sortedIds[..|sortedIds|] == sortedIds;
    DistinctLength(Steps(path), los.Keys);
  }

  /** Visiting the `j`-th prerequisite extends the visited prefix of the
      prerequisite list by one. */
  lemma VisitedPrefixGrows(los: Los, prereqs: seq<Value>, j: nat, before: set<Value>, after: set<Value>)
    requires j < |prereqs|
    requires forall i | 0 <= i < j && prereqs[i] in los :: prereqs[i] in before
    requires before <= after
    requires prereqs[j] in los ==> prereqs[j] in after
    ensures forall i | 0 <= i < j + 1 && prereqs[i] in los :: prereqs[i] in after
  {
  }

  /** The next id in sorted order is not among the ones before it. */
  lemma NextSortedIsFresh(sortedIds: seq<Value>, i: nat, visited: set<Value>, steps: seq<Value>)
    requires i < |sortedIds| && StrictlySorted(sortedIds)
    requires forall x :: x in visited <==> x in steps
    requires steps == sortedIds[..i]
    ensures sortedIds[i] !in visited
  {
    var lid := sortedIds[i];
    if lid in visited {
      var k :| 0 <= k < i && sortedIds[k] == lid;
      assert IdLess(sortedIds[k], sortedIds[i]);
      Strings.LessIrreflexive(lid.s);
    }
  }

  lemma StepsAppend(path: seq<Value>, lo: Value)
    ensures Steps(path + [lo]) == Steps(path) + [IdOf(lo)]
  {
  }

  /** A sequence without duplicates whose elements are exactly a set has the
      set's size. */
  lemma {:induction false} DistinctLength(ids: seq<Value>, keys: set<Value>)
    requires NoDuplicates(ids)
    requires forall x :: x in ids <==> x in keys
    ensures |ids| == |keys|
    decreases |ids|
  {
    if ids != [] {
      var n := |ids| - 1;
      forall x ensures x in ids[..n] <==> x in keys - {ids[n]} {
        if x in ids[..n] {
          var i :| 0 <= i < n && ids[..n][i] == x;
          assert ids[i] == x;
        }
      }
      DistinctLength(ids[..n], keys - {ids[n]});
    } else {
      assert forall x :: x !in keys;
      assert keys == {};
    }
  }

  // ---------------------------------------------------------------------
  // Properties
  // ---------------------------------------------------------------------

  /** load_los keeps exactly the files with an `id`: an id is loaded iff it
      was there before or some kept file carries it. */
  lemma {:induction false} LoadedIds(los: Los, walk: seq<WalkEntry>, id: Value)
    ensures id in LoadInto(los, walk) <==>
              id in los || exists j | 0 <= j < |walk| :: Keeps(walk[j]) && IdOf(walk[j].loaded.doc) == id
    decreases |walk|
  {
    if walk != [] {
      var n := |walk| - 1;
      LoadedIds(los, walk[..n], id);
      if j :| 0 <= j < |walk| && Keeps(walk[j]) && IdOf(walk[j].loaded.doc) == id {
        if j < n { assert walk[..n][j] == walk[j]; }
      }
    }
  }

  /** A repeated id keeps the record of the last file that has it. */
  lemma {:induction false} LoadLastWins(los: Los, walk: seq<WalkEntry>, j: nat)
    requires j < |walk| && Keeps(walk[j])
    requires forall i | j < i < |walk| :: !(Keeps(walk[i]) && IdOf(walk[i].loaded.doc) == IdOf(walk[j].loaded.doc))
    ensures IdOf(walk[j].loaded.doc) in LoadInto(los, walk)
    ensures LoadInto(los, walk)[IdOf(walk[j].loaded.doc)] == walk[j].loaded.doc
    decreases |walk|
  {
    var n := |walk| - 1;
    if j < n {
      assert walk[..n][j] == walk[j];
      assert forall i | j < i < n :: walk[..n][i] == walk[i];
      LoadLastWins(los, walk[..n], j);
    }
  }

  /** A chain of known prerequisites that returns to where it started. */
  predicate IsCycle(los: Los, cyc: seq<Value>) {
    && |cyc| >= 2 && cyc[0] == cyc[|cyc| - 1]
    && (forall k | 0 <= k < |cyc| :: cyc[k] in los)
    && (forall k | 0 <= k < |cyc| - 1 :: cyc[k + 1] in Prereqs(los[cyc[k]]))
  }

  lemma {:induction false} RankFalls(los: Los, rank: map<Value, nat>, cyc: seq<Value>, k: nat)
    requires Ranked(los, rank)
    requires forall i | 0 <= i < |cyc| :: cyc[i] in los
    requires forall i | 0 <= i < |cyc| - 1 :: cyc[i + 1] in Prereqs(los[cyc[i]])
    requires 0 < k < |cyc|
    ensures cyc[0] in rank && cyc[k] in rank && rank[cyc[k]] < rank[cyc[0]]
    decreases k
  {
    assert cyc[k] in Prereqs(los[cyc[k - 1]]);
    if k > 1 { RankFalls(los, rank, cyc, k - 1); }
  }

  /** With a prerequisite cycle there is no rank, so `plan` is not
      available: Python's `visit` would recurse round the cycle forever,
      since an id is marked visited only after its prerequisites. */
  lemma CycleHasNoRank(los: Los, rank: map<Value, nat>, cyc: seq<Value>)
    requires IsCycle(los, cyc)
    ensures !Ranked(los, rank)
  {
    if Ranked(los, rank) {
      RankFalls(los, rank, cyc, |cyc| - 1);
    }
  }
}
