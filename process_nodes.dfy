/** process_nodes.py: the node lists of the allowed and restricted ways,
    the nearest-restriction verdict of every allowed node, and the
    insert-if-absent into `nodes_final`. The `ways` and `nodes`
    collections are read-only sequences; `nodes_final` is a `Collection`. */
module ProcessNodes {
  import opened Values
  import opened Sequences
  import opened Scan
  import opened Store

  const MinAllowableDistance: real := 0.5
  const ClosestField: string := "closest_distance_restriction"
  const RestrictingField: string := "restricting_node_id"
  const BuildableField: string := "is_buildeable"

  // ---------------------------------------------------------------
  // query_get_nodes_from_way
  // ---------------------------------------------------------------

  /** `{"landuse": {"$in": landuse}}` on a way whose `landuse` is a scalar. */
  predicate LanduseIn(way: Record, landuse: seq<Value>) {
    "landuse" in way && way["landuse"] in landuse
  }

  /** Every `nodes` field that is present holds a list. */
  predicate NodeListsAreLists(docs: seq<Record>) {
    forall k :: 0 <= k < |docs| && "nodes" in docs[k] ==> docs[k]["nodes"].List?
  }

  /** The node lists of `docs` one after the other, or the KeyError of the
      first document without `nodes`. */
  function ConcatNodes(docs: seq<Record>): (r: Result<seq<Value>>)
    requires NodeListsAreLists(docs)
    ensures r.Err? <==> exists k :: 0 <= k < |docs| && "nodes" !in docs[k]
    ensures r.Err? ==> r.failure == MissingKey("nodes")
  {
    if docs == [] then Ok([])
    else
      var prev := ConcatNodes(docs[..|docs| - 1]);
      var doc := docs[|docs| - 1];
      if prev.Err? then prev
      else if "nodes" !in doc then Err(MissingKey("nodes"))
      else Ok(prev.value + doc["nodes"].items)
  }

  /** Lines 29-38: what the query returns. */
  function WayNodes(ways: seq<Record>, landuse: seq<Value>): Result<seq<Value>>
    requires NodeListsAreLists(ways)
  {
    var cursor := Filter(ways, (w: Record) => LanduseIn(w, landuse));
    NodeListsFiltered(ways, (w: Record) => LanduseIn(w, landuse));
    ConcatNodes(cursor)
  }

  lemma NodeListsFiltered(ways: seq<Record>, p: Record -> bool)
    requires NodeListsAreLists(ways)
    ensures NodeListsAreLists(Filter(ways, p))
  {
    var f: seq<Record> := Filter(ways, p);
    forall k: nat | k < |f| && "nodes" in f[k] ensures f[k]["nodes"].List? {
      FilterMultiplicity(ways, p, f[k]);
    }
  }

  /** Lines 29-38: the loop over the cursor, with its first-document case. */
  method QueryGetNodesFromWay(landuse: seq<Value>, ways: seq<Record>) returns (r: Result<seq<Value>>)
    requires NodeListsAreLists(ways)
    ensures r == WayNodes(ways, landuse)
  {
    var cursor := Filter(ways, (w: Record) => LanduseIn(w, landuse));
    NodeListsFiltered(ways, (w: Record) => LanduseIn(w, landuse));
    var nodesList: seq<Value> := [];
    for i := 0 to |cursor|
      invariant ConcatNodes(cursor[..i]) == Ok(nodesList)
    {
      var doc := cursor[i];
      assert cursor[..i + 1][..i] == cursor[..i];
      assert cursor[..i + 1][i] == doc;
      assert "nodes" in doc ==> ConcatNodes(cursor[..i + 1]) == Ok(nodesList + doc["nodes"].items);
      if "nodes" !in doc {
        r := Err(MissingKey("nodes"));
        ConcatNodesPrefixErr(cursor, i + 1);
        return;
      }
      if nodesList == [] {
        assert [] + doc["nodes"].items == doc["nodes"].items;
        nodesList := doc["nodes"].items;
      } else {
        nodesList := nodesList + doc["nodes"].items;
      }
    }
    assert cursor[..|cursor|] == cursor;
    r := Ok(nodesList);
  }

  /** Once a prefix fails, the whole sequence fails the same way. */
  lemma {:induction false} ConcatNodesPrefixErr(docs: seq<Record>, i: nat)
    requires NodeListsAreLists(docs) && i <= |docs|
    requires ConcatNodes(docs[..i]).Err?
    ensures ConcatNodes(docs) == ConcatNodes(docs[..i])
    decreases |docs| - i
  {
    if i < |docs| {
      assert docs[..i + 1][..i] == docs[..i];
      ConcatNodesPrefixErr(docs, i + 1);
    } else {
      assert docs[..i] == docs;
    }
  }

  lemma NodeListsSplit(a: seq<Record>, b: seq<Record>)
    requires NodeListsAreLists(a + b)
    ensures NodeListsAreLists(a) && NodeListsAreLists(b)
  {
    forall k | 0 <= k < |a| ensures a[k] == (a + b)[k] { }
    forall k | 0 <= k < |b| ensures b[k] == (a + b)[|a| + k] { }
  }

  /** The concatenation follows the document order. */
  lemma {:induction false} ConcatNodesAppend(a: seq<Record>, b: seq<Record>)
    requires NodeListsAreLists(a + b)
    requires ConcatNodes(a + b).Ok?
    ensures NodeListsAreLists(a) && NodeListsAreLists(b)
    ensures ConcatNodes(a).Ok? && ConcatNodes(b).Ok?
    ensures ConcatNodes(a + b).value == ConcatNodes(a).value + ConcatNodes(b).value
    decreases |b|
  {
    NodeListsSplit(a, b);
    if b == [] {
      assert a + b == a;
    } else {
      var b', last := b[..|b| - 1], b[|b| - 1];
      assert b == b' + [last];
      assert a + b == (a + b') + [last];
      assert (a + b)[..|a + b| - 1] == a + b';
      NodeListsSplit(a + b', [last]);
      NodeListsSplit(b', [last]);
      ConcatNodesAppend(a, b');
      assert ConcatNodes(a + b).value == ConcatNodes(a + b').value + last["nodes"].items;
      assert ConcatNodes(b).value == ConcatNodes(b').value + last["nodes"].items;
    }
  }

  /** A node id is returned exactly when some way with one of the land
      uses lists it. */
  lemma {:induction false} ConcatNodesMember(docs: seq<Record>, x: Value)
    requires NodeListsAreLists(docs) && ConcatNodes(docs).Ok?
    ensures x in ConcatNodes(docs).value <==>
      exists k :: 0 <= k < |docs| && "nodes" in docs[k] && x in docs[k]["nodes"].items
  {
    if docs != [] {
      var docs' := docs[..|docs| - 1];
      ConcatNodesMember(docs', x);
      assert forall k :: 0 <= k < |docs'| ==> docs'[k] == docs[k];
    }
  }

  lemma WayNodesMember(ways: seq<Record>, landuse: seq<Value>, x: Value)
    requires NodeListsAreLists(ways) && WayNodes(ways, landuse).Ok?
    ensures x in WayNodes(ways, landuse).value <==>
      exists w: Record :: w in ways && LanduseIn(w, landuse) && "nodes" in w && x in w["nodes"].items
  {
    var p := (w: Record) => LanduseIn(w, landuse);
    var cursor := Filter(ways, p);
    NodeListsFiltered(ways, p);
    ConcatNodesMember(cursor, x);
    if x in WayNodes(ways, landuse).value {
      var k :| 0 <= k < |cursor| && "nodes" in cursor[k] && x in cursor[k]["nodes"].items;
      FilterMultiplicity(ways, p, cursor[k]);
    }
    forall w: Record | w in ways && LanduseIn(w, landuse) && "nodes" in w && x in w["nodes"].items
      ensures exists k :: 0 <= k < |cursor| && "nodes" in cursor[k] && x in cursor[k]["nodes"].items
    {
      FilterMultiplicity(ways, p, w);
      var k :| 0 <= k < |cursor| && cursor[k] == w;
    }
  }

  /** The query fails exactly when some matching way has no `nodes`. */
  lemma WayNodesFails(ways: seq<Record>, landuse: seq<Value>)
    requires NodeListsAreLists(ways)
    ensures WayNodes(ways, landuse).Err? <==> exists w: Record :: w in ways && LanduseIn(w, landuse) && "nodes" !in w
  {
    var p := (w: Record) => LanduseIn(w, landuse);
    var cursor := Filter(ways, p);
    if WayNodes(ways, landuse).Err? {
      var k :| 0 <= k < |cursor| && "nodes" !in cursor[k];
      FilterMultiplicity(ways, p, cursor[k]);
    }
    forall w: Record | w in ways && LanduseIn(w, landuse) && "nodes" !in w
      ensures exists k :: 0 <= k < |cursor| && "nodes" !in cursor[k]
    {
      FilterMultiplicity(ways, p, w);
      var k :| 0 <= k < |cursor| && cursor[k] == w;
    }
  }

  // ---------------------------------------------------------------
  // find_closest_restriction
  // ---------------------------------------------------------------

  /** `next(collection.find({"id": id}, {"_id": 0, "region_id": 0}), None)`. */
  function LookUp(col: seq<Record>, id: Value): (r: Option<Record>)
    ensures r.None? <==> forall k :: 0 <= k < |col| ==> !Matches(col[k], "id", id)
    ensures r.Some? ==> r.value == col[FirstMatch(col, "id", id).value] - {"_id", "region_id"}
  {
    match FirstMatch(col, "id", id)
    case None => None
    case Some(k) => Some(col[k] - {"_id", "region_id"})
  }

  /** Every node document has a position. */
  predicate Located(col: seq<Record>) {
    forall k :: 0 <= k < |col| ==> HasPosition(col[k])
  }

  lemma LookUpFacts(col: seq<Record>, id: Value)
    requires Located(col) && LookUp(col, id).Some?
    ensures HasPosition(LookUp(col, id).value) && Matches(LookUp(col, id).value, "id", id)
  {
  }

  /** The position of the node `id`, which is found. */
  function NodePoint(col: seq<Record>, id: Value): Point
    requires Located(col) && LookUp(col, id).Some?
  {
    LookUpFacts(col, id);
    Position(LookUp(col, id).value)
  }

  /** The distance from `p` to the node `id`, which is found. */
  function DistTo(p: Point, col: seq<Record>, id: Value, dist: Distance): real
    requires Located(col) && LookUp(col, id).Some?
  {
    LookUpFacts(col, id);
    dist(p, Position(LookUp(col, id).value)) as real
  }

  /** The restricting node `id` is found and not close enough to stop the scan. */
  predicate Passes(p: Point, col: seq<Record>, id: Value, dist: Distance)
    requires Located(col)
  {
    LookUp(col, id).Some? && DistTo(p, col, id, dist) >= MinAllowableDistance
  }

  /** The distances the loop of lines 59-71 computes: up to and including
      the first one below the threshold, or the failed lookup that makes
      `calculate_distance` index None. */
  function Probe(p: Point, col: seq<Record>, ids: seq<Value>, dist: Distance): (r: Result<seq<real>>)
    requires Located(col)
    ensures r.Ok? ==> |r.value| <= |ids|
    decreases |ids|
  {
    if ids == [] then Ok([])
    else if LookUp(col, ids[0]).None? then Err(NotFound(ids[0]))
    else
      var d := DistTo(p, col, ids[0], dist);
      if d < MinAllowableDistance then Ok([d])
      else match Probe(p, col, ids[1..], dist)
        case Err(f) => Err(f)
        case Ok(ds) => Ok([d] + ds)
  }

  /** A scan that ends early ends on a distance under the threshold, and
      every distance before the last is at least the threshold. */
  lemma {:induction false} ProbeShape(p: Point, col: seq<Record>, ids: seq<Value>, dist: Distance)
    requires Located(col) && Probe(p, col, ids, dist).Ok?
    ensures var ds := Probe(p, col, ids, dist).value;
      && (forall k :: 0 <= k < |ds| - 1 ==> ds[k] >= MinAllowableDistance)
      && (|ds| < |ids| ==> ds != [] && ds[|ds| - 1] < MinAllowableDistance)
    decreases |ids|
  {
    if ids != [] && DistTo(p, col, ids[0], dist) >= MinAllowableDistance {
      ProbeShape(p, col, ids[1..], dist);
    }
  }

  /** The value of `final_res_node_id`: the restricting id at which the
      running minimum over the distances before the stopping one last
      strictly dropped, or 0 when it never did. */
  function RestrictingId(ids: seq<Value>, ds: seq<real>): Value
    requires |ds| <= |ids|
  {
    var m := if ds != [] && ds[|ds| - 1] < MinAllowableDistance then |ds| - 1 else |ds|;
    if m == 0 then Int(0)
    else
      var k := ArgMin(ds[..m]);
      if k == 0 then Int(0) else ids[k]
  }

  /** Lines 72-77: the three fields written onto the node. */
  function WithVerdict(node: Record, ids: seq<Value>, ds: seq<real>): Record
    requires |ds| <= |ids|
  {
    var c := ClosestOrZero(ds, MinAllowableDistance);
    node[ClosestField := ClosestValue(c)]
        [RestrictingField := RestrictingId(ids, ds)]
        [BuildableField := Bool(c >= MinAllowableDistance)]
  }

  lemma WithVerdictFields(node: Record, ids: seq<Value>, ds: seq<real>)
    requires |ds| <= |ids|
    ensures var out, c := WithVerdict(node, ids, ds), ClosestOrZero(ds, MinAllowableDistance);
      && out[ClosestField] == ClosestValue(c)
      && out[RestrictingField] == RestrictingId(ids, ds)
      && out[BuildableField] == Bool(c >= MinAllowableDistance)
    ensures WithVerdict(node, ids, ds).Keys == node.Keys + {ClosestField, RestrictingField, BuildableField}
    ensures forall k :: k in node && k !in {ClosestField, RestrictingField, BuildableField} ==> WithVerdict(node, ids, ds)[k] == node[k]
  {
    assert ClosestField != RestrictingField && ClosestField != BuildableField by {
      assert ClosestField[0] != RestrictingField[0] && ClosestField[0] != BuildableField[0];
    }
    assert RestrictingField != BuildableField by {
      assert RestrictingField[0] != BuildableField[0];
    }
  }

  /** Lines 51-79 as one value. */
  function ClosestRestriction(nodeId: Value, col: seq<Record>, ids: seq<Value>, dist: Distance): Result<Record>
    requires Located(col)
  {
    match LookUp(col, nodeId)
    case None => Err(NotFound(nodeId))
    case Some(node) =>
      LookUpFacts(col, nodeId);
      match Probe(Position(node), col, ids, dist)
      case Err(f) => Err(f)
      case Ok(ds) => Ok(WithVerdict(node, ids, ds))
  }

  /** The distances of an earlier stretch of the scan put in front. */
  function Prepend(walked: seq<real>, rest: Result<seq<real>>): Result<seq<real>> {
    match rest
    case Err(f) => Err(f)
    case Ok(ds) => Ok(walked + ds)
  }

  /** One restricting id that passes: the scan of the rest follows its distance. */
  lemma ProbeStep(p: Point, col: seq<Record>, ids: seq<Value>, dist: Distance, walked: seq<real>, i: nat)
    requires Located(col) && i < |ids| && Passes(p, col, ids[i], dist)
    ensures Prepend(walked, Probe(p, col, ids[i..], dist))
         == Prepend(walked + [DistTo(p, col, ids[i], dist)], Probe(p, col, ids[i + 1..], dist))
  {
    assert ids[i..][0] == ids[i];
    assert ids[i..][1..] == ids[i + 1..];
    var d := DistTo(p, col, ids[i], dist);
    match Probe(p, col, ids[i + 1..], dist)
    case Err(_) =>
    case Ok(ds) =>
      assert walked + ([d] + ds) == walked + [d] + ds;
  }

  /** The running values after a scan that met no close restriction. */
  lemma VerdictComplete(ids: seq<Value>, walked: seq<real>)
    requires |walked| <= |ids|
    requires forall k :: 0 <= k < |walked| ==> walked[k] >= MinAllowableDistance
    ensures ClosestOrZero(walked, MinAllowableDistance) == if walked == [] then 0.0 else walked[ArgMin(walked)]
    ensures RestrictingId(ids, walked) == if walked == [] || ArgMin(walked) == 0 then Int(0) else ids[ArgMin(walked)]
  {
    assert walked[..|walked|] == walked;
  }

  /** The running values after a scan that stopped at the distance `d`. */
  lemma VerdictStopped(ids: seq<Value>, walked: seq<real>, d: real)
    requires |walked| < |ids| && d < MinAllowableDistance
    ensures ClosestOrZero(walked + [d], MinAllowableDistance) == 0.0
    ensures RestrictingId(ids, walked + [d]) == if walked == [] || ArgMin(walked) == 0 then Int(0) else ids[ArgMin(walked)]
  {
    var ds := walked + [d];
    assert ds[|walked|] == d;
    assert ds[..|walked|] == walked;
  }

  /** The scan of the ids from `i` on, when the one at `i` is not found or
      is close enough to stop it. */
  lemma ProbeEndsAt(p: Point, col: seq<Record>, ids: seq<Value>, dist: Distance, i: nat)
    requires Located(col) && i < |ids|
    ensures LookUp(col, ids[i]).None? ==> Probe(p, col, ids[i..], dist) == Err(NotFound(ids[i]))
    ensures LookUp(col, ids[i]).Some? && DistTo(p, col, ids[i], dist) < MinAllowableDistance ==>
      Probe(p, col, ids[i..], dist) == Ok([DistTo(p, col, ids[i], dist)])
  {
    assert ids[i..][0] == ids[i];
  }

  /** Lines 60-61: the lookup of one restricting node and its distance. */
  method Measure(p: Point, col: seq<Record>, id: Value, dist: Distance) returns (found: bool, d: real)
    requires Located(col)
    ensures found == LookUp(col, id).Some?
    ensures found ==> d == DistTo(p, col, id, dist) && d >= 0.0
  {
    var restricting := LookUp(col, id);
    if restricting.None? {
      return false, 0.0;
    }
    LookUpFacts(col, id);
    found, d := true, dist(p, Position(restricting.value)) as real;
  }

  /** The running minimum and the id recorded with it over the distances
      walked so far. */
  predicate Running(ids: seq<Value>, walked: seq<real>, closest: real, finalId: Value) {
    && |walked| <= |ids|
    && (forall k :: 0 <= k < |walked| ==> walked[k] >= MinAllowableDistance)
    && closest == (if walked == [] then 0.0 else walked[ArgMin(walked)])
    && finalId == (if walked == [] || ArgMin(walked) == 0 then Int(0) else ids[ArgMin(walked)])
  }

  /** Lines 63-71 for a distance that does not stop the scan. */
  lemma RunningStep(ids: seq<Value>, walked: seq<real>, d: real, closest: real, finalId: Value)
    requires Running(ids, walked, closest, finalId) && |walked| < |ids| && d >= MinAllowableDistance
    ensures var c := if closest == 0.0 then d else closest;
      Running(ids, walked + [d], if c > d then d else c, if c > d then ids[|walked|] else finalId)
  {
    var w := walked + [d];
    assert w[..|walked|] == walked;
    assert w[..|walked| + 1] == w;
    if walked != [] {
      ArgMinStep(w, |walked|);
    }
  }

  /** The loop of lines 59-71 has measured `walked` and reached the id at `i`. */
  predicate ScanAt(p: Point, col: seq<Record>, ids: seq<Value>, dist: Distance, walked: seq<real>, i: nat,
                   closest: real, finalId: Value)
    requires Located(col)
  {
    && i <= |ids| && |walked| == i
    && Probe(p, col, ids, dist) == Prepend(walked, Probe(p, col, ids[i..], dist))
    && Running(ids, walked, closest, finalId)
  }

  /** The id at `i` names no node: the scan fails there. */
  lemma ScanMissing(p: Point, col: seq<Record>, ids: seq<Value>, dist: Distance, walked: seq<real>, i: nat,
                    closest: real, finalId: Value)
    requires Located(col) && ScanAt(p, col, ids, dist, walked, i, closest, finalId)
    requires i < |ids| && LookUp(col, ids[i]).None?
    ensures Probe(p, col, ids, dist) == Err(NotFound(ids[i]))
  {
    ProbeEndsAt(p, col, ids, dist, i);
  }

  /** The id at `i` is closer than 0.5: the scan stops there with 0 and the
      id it had. */
  lemma ScanStops(p: Point, col: seq<Record>, ids: seq<Value>, dist: Distance, walked: seq<real>, i: nat,
                  closest: real, finalId: Value)
    requires Located(col) && ScanAt(p, col, ids, dist, walked, i, closest, finalId)
    requires i < |ids| && LookUp(col, ids[i]).Some? && DistTo(p, col, ids[i], dist) < MinAllowableDistance
    ensures var ds := walked + [DistTo(p, col, ids[i], dist)];
      && Probe(p, col, ids, dist) == Ok(ds)
      && ClosestOrZero(ds, MinAllowableDistance) == 0.0
      && RestrictingId(ids, ds) == finalId
  {
    ProbeEndsAt(p, col, ids, dist, i);
    VerdictStopped(ids, walked, DistTo(p, col, ids[i], dist));
  }

  /** The id at `i` passes: the scan goes on with the running values updated. */
  lemma ScanPasses(p: Point, col: seq<Record>, ids: seq<Value>, dist: Distance, walked: seq<real>, i: nat,
                   closest: real, finalId: Value)
    requires Located(col) && ScanAt(p, col, ids, dist, walked, i, closest, finalId)
    requires i < |ids| && Passes(p, col, ids[i], dist)
    ensures var d := DistTo(p, col, ids[i], dist);
      var c := if closest == 0.0 then d else closest;
      ScanAt(p, col, ids, dist, walked + [d], i + 1, if c > d then d else c, if c > d then ids[i] else finalId)
  {
    ProbeStep(p, col, ids, dist, walked, i);
    RunningStep(ids, walked, DistTo(p, col, ids[i], dist), closest, finalId);
  }

  /** Every id was measured: the running values are the verdict. */
  lemma ScanComplete(p: Point, col: seq<Record>, ids: seq<Value>, dist: Distance, walked: seq<real>,
                     closest: real, finalId: Value)
    requires Located(col) && ScanAt(p, col, ids, dist, walked, |ids|, closest, finalId)
    ensures Probe(p, col, ids, dist) == Ok(walked)
    ensures closest == ClosestOrZero(walked, MinAllowableDistance) && finalId == RestrictingId(ids, walked)
  {
    assert ids[|ids|..] == [];
    assert walked + [] == walked;
    VerdictComplete(ids, walked);
  }

  /** Lines 56-71: the scan over the restricting ids, with the lookup of
      each one. */
  method ScanRestrictions(p: Point, col: seq<Record>, ids: seq<Value>, dist: Distance)
    returns (failure: Option<Failure>, closest: real, finalId: Value, ghost ds: seq<real>)
    requires Located(col)
    ensures failure.Some? <==> Probe(p, col, ids, dist).Err?
    ensures failure.Some? ==> failure.value == Probe(p, col, ids, dist).failure
    ensures failure.None? ==> Probe(p, col, ids, dist) == Ok(ds)
    ensures failure.None? ==> closest == ClosestOrZero(ds, MinAllowableDistance) && finalId == RestrictingId(ids, ds)
  {
    failure, closest, finalId, ds := None, 0.0, Int(0), [];
    ghost var walked: seq<real> := [];
    assert ScanAt(p, col, ids, dist, walked, 0, closest, finalId) by {
      assert ids[0..] == ids;
      assert Probe(p, col, ids, dist).Ok? ==> [] + Probe(p, col, ids, dist).value == Probe(p, col, ids, dist).value;
    }
    var i := 0;
    while i < |ids|
      invariant ScanAt(p, col, ids, dist, walked, i, closest, finalId)
      decreases |ids| - i
    {
      var found, current := Measure(p, col, ids[i], dist);
      if !found {
        ScanMissing(p, col, ids, dist, walked, i, closest, finalId);
        failure := Some(NotFound(ids[i]));
        return;
      }
      if current < MinAllowableDistance {
        ScanStops(p, col, ids, dist, walked, i, closest, finalId);
      } else {
        ScanPasses(p, col, ids, dist, walked, i, closest, finalId);
      }
      if closest == 0.0 {
        closest := current;
      }
      if current < MinAllowableDistance {
        closest := 0.0;
        ds := walked + [current];
        return;
      } else if closest > current {
        closest := current;
        finalId := ids[i];
      }
      walked := walked + [current];
      i := i + 1;
    }
    ScanComplete(p, col, ids, dist, walked, closest, finalId);
    ds := walked;
  }

  /** Lines 51-79. */
  method FindClosestRestriction(nodeId: Value, col: seq<Record>, ids: seq<Value>, dist: Distance)
    returns (r: Result<Record>)
    requires Located(col)
    ensures r == ClosestRestriction(nodeId, col, ids, dist)
  {
    var found := LookUp(col, nodeId);
    if found.None? {
      return Err(NotFound(nodeId));
    }
    var node := found.value;
    LookUpFacts(col, nodeId);
    var failure, closest, finalId, ds := ScanRestrictions(Position(node), col, ids, dist);
    if failure.Some? {
      return Err(failure.value);
    }
    node := node[ClosestField := ClosestValue(closest)];
    node := node[RestrictingField := finalId];
    if closest >= MinAllowableDistance {
      node := node[BuildableField := Bool(true)];
    } else {
      node := node[BuildableField := Bool(false)];
    }
    r := Ok(node);
  }

  /** The ids all name a node document. */
  predicate Resolves(col: seq<Record>, ids: seq<Value>) {
    forall k :: 0 <= k < |ids| ==> LookUp(col, ids[k]).Some?
  }

  /** The distance to every restricting node, whether or not the scan
      reaches it. */
  function AllDists(p: Point, col: seq<Record>, ids: seq<Value>, dist: Distance): (ds: seq<real>)
    requires Located(col) && Resolves(col, ids)
    ensures |ds| == |ids|
    ensures forall k :: 0 <= k < |ids| ==> ds[k] == DistTo(p, col, ids[k], dist)
  {
    seq(|ids|, k requires 0 <= k < |ids| => DistTo(p, col, ids[k], dist))
  }

  /** When every restricting node is found, the scan measures the
      distances up to the first one under 0.5, or all of them. */
  lemma {:induction false} ProbeResolved(p: Point, col: seq<Record>, ids: seq<Value>, dist: Distance)
    requires Located(col) && Resolves(col, ids)
    ensures var all := AllDists(p, col, ids, dist);
      Probe(p, col, ids, dist) == Ok(if HasBelow(all, MinAllowableDistance) then all[..FirstBelow(all, MinAllowableDistance) + 1] else all)
    decreases |ids|
  {
    if ids != [] {
      var rest := ids[1..];
      AllDistsCons(p, col, ids, dist);
      var all, tail := AllDists(p, col, ids, dist), AllDists(p, col, rest, dist);
      if all[0] >= MinAllowableDistance {
        ProbeResolved(p, col, rest, dist);
        FirstBelowCons(all[0], tail, MinAllowableDistance);
      } else {
        assert HasBelow(all, MinAllowableDistance);
        assert all[..1] == [all[0]];
      }
    }
  }

  lemma AllDistsCons(p: Point, col: seq<Record>, ids: seq<Value>, dist: Distance)
    requires Located(col) && Resolves(col, ids) && ids != []
    ensures Resolves(col, ids[1..])
    ensures AllDists(p, col, ids, dist) == [DistTo(p, col, ids[0], dist)] + AllDists(p, col, ids[1..], dist)
  {
    var rest := ids[1..];
    assert Resolves(col, rest) by {
      forall k | 0 <= k < |rest| ensures LookUp(col, rest[k]).Some? {
        assert rest[k] == ids[k + 1];
      }
    }
    var all, tail := AllDists(p, col, ids, dist), AllDists(p, col, rest, dist);
    assert all == [all[0]] + tail by {
      forall k | 0 <= k < |tail| ensures all[k + 1] == tail[k] {
        assert rest[k] == ids[k + 1];
      }
    }
  }

  /** The scan fails exactly at the first restricting id it reaches that
      names no node. */
  lemma {:induction false} ProbeFails(p: Point, col: seq<Record>, ids: seq<Value>, dist: Distance)
    requires Located(col)
    ensures Probe(p, col, ids, dist).Err? <==>
      exists k :: 0 <= k < |ids| && LookUp(col, ids[k]).None? && forall j :: 0 <= j < k ==> Passes(p, col, ids[j], dist)
    ensures Probe(p, col, ids, dist).Err? ==>
      exists k :: 0 <= k < |ids| && LookUp(col, ids[k]).None? && (forall j :: 0 <= j < k ==> Passes(p, col, ids[j], dist))
        && Probe(p, col, ids, dist).failure == NotFound(ids[k])
    decreases |ids|
  {
    if ids != [] && LookUp(col, ids[0]).Some? {
      var rest := ids[1..];
      ProbeFails(p, col, rest, dist);
      if Passes(p, col, ids[0], dist) {
        if Probe(p, col, rest, dist).Err? {
          var k :| 0 <= k < |rest| && LookUp(col, rest[k]).None? && (forall j :: 0 <= j < k ==> Passes(p, col, rest[j], dist))
            && Probe(p, col, rest, dist).failure == NotFound(rest[k]);
          assert rest[k] == ids[k + 1];
          assert forall j :: 0 <= j < k + 1 ==> Passes(p, col, ids[j], dist) by {
            forall j | 0 <= j < k + 1 ensures Passes(p, col, ids[j], dist) {
              if j > 0 { assert ids[j] == rest[j - 1]; }
            }
          }
        }
        forall k | 0 <= k < |ids| && LookUp(col, ids[k]).None? && (forall j :: 0 <= j < k ==> Passes(p, col, ids[j], dist))
          ensures Probe(p, col, rest, dist).Err?
        {
          assert rest[k - 1] == ids[k];
          assert forall j :: 0 <= j < k - 1 ==> Passes(p, col, rest[j], dist) by {
            forall j | 0 <= j < k - 1 ensures Passes(p, col, rest[j], dist) {
              assert rest[j] == ids[j + 1];
            }
          }
        }
      } else {
        forall k | 0 <= k < |ids| && LookUp(col, ids[k]).None?
          ensures exists j :: 0 <= j < k && !Passes(p, col, ids[j], dist)
        {
          assert !Passes(p, col, ids[0], dist);
        }
      }
    }
  }

  lemma ClosestRestrictionFound(nodeId: Value, col: seq<Record>, ids: seq<Value>, dist: Distance)
    requires Located(col) && ClosestRestriction(nodeId, col, ids, dist).Ok?
    ensures LookUp(col, nodeId).Some? && HasPosition(LookUp(col, nodeId).value)
    ensures Probe(Position(LookUp(col, nodeId).value), col, ids, dist).Ok?
  {
  }

  /** Lines 53 and 72-79: the returned record is the looked-up node, without
      `_id` and `region_id`, with exactly the three verdict fields added. */
  lemma ClosestRestrictionFields(nodeId: Value, col: seq<Record>, ids: seq<Value>, dist: Distance)
    requires Located(col) && ClosestRestriction(nodeId, col, ids, dist).Ok?
    ensures var out := ClosestRestriction(nodeId, col, ids, dist).value;
      var node := LookUp(col, nodeId).value;
      && out.Keys == node.Keys + {ClosestField, RestrictingField, BuildableField}
      && (forall k :: k in node && k != ClosestField && k != RestrictingField && k != BuildableField ==> out[k] == node[k])
      && Matches(out, "id", nodeId)
      && "_id" !in node && "region_id" !in node
  {
    var node := LookUp(col, nodeId).value;
    LookUpFacts(col, nodeId);
  }

  /** Lines 74-77: the node is buildable exactly when there is at least one
      restricting node and every one of them is found and at least 0.5 km
      away. */
  lemma ClosestRestrictionBuildable(nodeId: Value, col: seq<Record>, ids: seq<Value>, dist: Distance)
    requires Located(col) && ClosestRestriction(nodeId, col, ids, dist).Ok?
    ensures var out := ClosestRestriction(nodeId, col, ids, dist).value;
      var p := NodePoint(col, nodeId);
      out[BuildableField] == Bool(true) <==> ids != [] && forall k :: 0 <= k < |ids| ==> Passes(p, col, ids[k], dist)
  {
    LookUpFacts(col, nodeId);
    var p := Position(LookUp(col, nodeId).value);
    var ds := Probe(p, col, ids, dist).value;
    var c := ClosestOrZero(ds, MinAllowableDistance);
    if ids != [] && forall k :: 0 <= k < |ids| ==> Passes(p, col, ids[k], dist) {
      ProbeResolved(p, col, ids, dist);
      var all := AllDists(p, col, ids, dist);
      assert !HasBelow(all, MinAllowableDistance);
      assert c != 0.0;
    }
    if c >= MinAllowableDistance {
      assert !HasBelow(ds, MinAllowableDistance) && ds != [];
      ProbeShape(p, col, ids, dist);
      assert |ds| == |ids|;
      Walk(p, col, ids, dist);
    }
  }

  /** A complete scan with no close restriction passed every id. */
  lemma {:induction false} Walk(p: Point, col: seq<Record>, ids: seq<Value>, dist: Distance)
    requires Located(col) && Probe(p, col, ids, dist).Ok?
    requires |Probe(p, col, ids, dist).value| == |ids|
    requires !HasBelow(Probe(p, col, ids, dist).value, MinAllowableDistance)
    ensures forall k :: 0 <= k < |ids| ==> Passes(p, col, ids[k], dist)
    decreases |ids|
  {
    if ids != [] {
      var ds := Probe(p, col, ids, dist).value;
      assert ds[0] >= MinAllowableDistance;
      var rest := ids[1..];
      assert ds == [ds[0]] + Probe(p, col, rest, dist).value;
      assert !HasBelow(Probe(p, col, rest, dist).value, MinAllowableDistance) by {
        forall k | 0 <= k < |ds| - 1 ensures Probe(p, col, rest, dist).value[k] >= MinAllowableDistance {
          assert Probe(p, col, rest, dist).value[k] == ds[k + 1];
        }
      }
      Walk(p, col, rest, dist);
      forall k | 0 <= k < |ids| ensures Passes(p, col, ids[k], dist) {
        if k > 0 { assert ids[k] == rest[k - 1]; }
      }
    }
  }

  /** Lines 66-68: a restricting node closer than 0.5 km makes the stored
      distance the integer 0 and the node not buildable. */
  lemma ClosestRestrictionStops(nodeId: Value, col: seq<Record>, ids: seq<Value>, dist: Distance)
    requires Located(col) && LookUp(col, nodeId).Some? && Resolves(col, ids)
    requires HasBelow(AllDists(NodePoint(col, nodeId), col, ids, dist), MinAllowableDistance)
    ensures ClosestRestriction(nodeId, col, ids, dist).Ok?
    ensures ClosestRestriction(nodeId, col, ids, dist).value[ClosestField] == Int(0)
    ensures ClosestRestriction(nodeId, col, ids, dist).value[BuildableField] == Bool(false)
  {
    LookUpFacts(col, nodeId);
    var p := Position(LookUp(col, nodeId).value);
    ProbeResolved(p, col, ids, dist);
    var all := AllDists(p, col, ids, dist);
    var f := FirstBelow(all, MinAllowableDistance);
    var ds := all[..f + 1];
    assert ds[f] < MinAllowableDistance;
    assert ClosestOrZero(ds, MinAllowableDistance) == 0.0;
    assert ClosestRestriction(nodeId, col, ids, dist) == Ok(WithVerdict(LookUp(col, nodeId).value, ids, ds));
    WithVerdictFields(LookUp(col, nodeId).value, ids, ds);
  }

  /** Lines 63-71: with no restricting node closer than 0.5 km the stored
      distance is the smallest one, and the recorded id is the one where
      the running minimum last dropped: 0 when the first node is a nearest
      one. */
  lemma ClosestRestrictionMinimum(nodeId: Value, col: seq<Record>, ids: seq<Value>, dist: Distance)
    requires Located(col) && LookUp(col, nodeId).Some? && Resolves(col, ids) && ids != []
    requires !HasBelow(AllDists(NodePoint(col, nodeId), col, ids, dist), MinAllowableDistance)
    ensures ClosestRestriction(nodeId, col, ids, dist).Ok?
    ensures var all := AllDists(NodePoint(col, nodeId), col, ids, dist);
      var out := ClosestRestriction(nodeId, col, ids, dist).value;
      && out[BuildableField] == Bool(true)
      && out[ClosestField].Real?
      && out[ClosestField].r in all
      && (forall k :: 0 <= k < |all| ==> out[ClosestField].r <= all[k])
      && out[RestrictingField] == (if ArgMin(all) == 0 then Int(0) else ids[ArgMin(all)])
      && (forall k :: 0 <= k < ArgMin(all) ==> all[k] > out[ClosestField].r)
  {
    LookUpFacts(col, nodeId);
    var p := Position(LookUp(col, nodeId).value);
    ProbeResolved(p, col, ids, dist);
    var all := AllDists(p, col, ids, dist);
    assert all[..|all|] == all;
    assert all[|all| - 1] >= MinAllowableDistance;
    WithVerdictFields(LookUp(col, nodeId).value, ids, all);
  }

  /** Line 58 and 72-77: with no restricting node the distance and the id
      stay the integer 0 and the node is not buildable. */
  lemma ClosestRestrictionEmpty(nodeId: Value, col: seq<Record>, dist: Distance)
    requires Located(col) && LookUp(col, nodeId).Some?
    ensures ClosestRestriction(nodeId, col, [], dist).Ok?
    ensures ClosestRestriction(nodeId, col, [], dist).value[ClosestField] == Int(0)
    ensures ClosestRestriction(nodeId, col, [], dist).value[RestrictingField] == Int(0)
    ensures ClosestRestriction(nodeId, col, [], dist).value[BuildableField] == Bool(false)
  {
    LookUpFacts(col, nodeId);
  }

  /** An unknown node id, or an unknown restricting id reached by the scan,
      ends in the TypeError of indexing None. */
  lemma ClosestRestrictionFails(nodeId: Value, col: seq<Record>, ids: seq<Value>, dist: Distance)
    requires Located(col)
    ensures ClosestRestriction(nodeId, col, ids, dist).Err? <==>
      || LookUp(col, nodeId).None?
      || exists k :: 0 <= k < |ids| && LookUp(col, ids[k]).None? &&
           forall j :: 0 <= j < k ==> Passes(NodePoint(col, nodeId), col, ids[j], dist)
  {
    if LookUp(col, nodeId).Some? {
      LookUpFacts(col, nodeId);
      ProbeFails(Position(LookUp(col, nodeId).value), col, ids, dist);
    }
  }

  // ---------------------------------------------------------------
  // insert_to_collection and iterate_nodes_list
  // ---------------------------------------------------------------

  predicate HasDocument(docs: seq<Record>, id: Value) {
    exists k :: 0 <= k < |docs| && Matches(docs[k], "id", id)
  }

  /** No two documents share an `id`. */
  predicate UniqueIds(docs: seq<Record>) {
    forall j, k :: 0 <= j < k < |docs| && "id" in docs[j] && "id" in docs[k] ==> docs[j]["id"] != docs[k]["id"]
  }

  /** Lines 83-88: the collection after the insert, which happens only when
      no document has the same `id`. */
  function InsertIfAbsent(docs: seq<Record>, doc: Record): (r: seq<Record>)
    requires "id" in doc
    ensures docs <= r && |r| <= |docs| + 1
    ensures HasDocument(r, doc["id"])
    ensures r == docs <==> HasDocument(docs, doc["id"])
    ensures !HasDocument(docs, doc["id"]) ==> r == docs + [doc]
  {
    if HasDocument(docs, doc["id"]) then docs
    else
      assert (docs + [doc])[|docs|] == doc;
      docs + [doc]
  }

  /** Repeating the insert changes nothing. */
  lemma InsertIdempotent(docs: seq<Record>, doc: Record)
    requires "id" in doc
    ensures InsertIfAbsent(InsertIfAbsent(docs, doc), doc) == InsertIfAbsent(docs, doc)
  {
  }

  /** The insert never creates a second document with the same `id`. */
  lemma InsertKeepsIdsUnique(docs: seq<Record>, doc: Record)
    requires "id" in doc && UniqueIds(docs)
    ensures UniqueIds(InsertIfAbsent(docs, doc))
  {
    var r := InsertIfAbsent(docs, doc);
    if r != docs {
      forall j, k | 0 <= j < k < |r| && "id" in r[j] && "id" in r[k] ensures r[j]["id"] != r[k]["id"] {
        if k == |docs| {
          assert r[j] == docs[j] && r[k] == doc;
          assert !Matches(docs[j], "id", doc["id"]);
        } else {
          assert r[j] == docs[j] && r[k] == docs[k];
        }
      }
    }
  }

  /** Lines 81-88. */
  method InsertToCollection(document: Record, collection: Collection)
    requires "id" in document
    modifies collection
    ensures collection.documents == InsertIfAbsent(old(collection.documents), document)
  {
    var cursorCheck := FindAll(collection.documents, "id", document["id"]);
    if |cursorCheck| == 0 {
      collection.InsertOne(document);
    }
  }

  /** The collection after some attempts, and the exception that ended them. */
  datatype Run = Run(documents: seq<Record>, failure: Option<Failure>)

  /** The outcome of `find_closest_restriction` for each allowable id. */
  function Verdicts(allowable: seq<Value>, col: seq<Record>, restricting: seq<Value>, dist: Distance): (v: seq<Result<Record>>)
    requires Located(col)
    ensures |v| == |allowable|
    ensures forall k :: 0 <= k < |v| ==> v[k] == ClosestRestriction(allowable[k], col, restricting, dist)
    ensures forall k :: 0 <= k < |v| && v[k].Ok? ==> Matches(v[k].value, "id", allowable[k])
  {
    assert forall k :: 0 <= k < |allowable| && ClosestRestriction(allowable[k], col, restricting, dist).Ok? ==>
      Matches(ClosestRestriction(allowable[k], col, restricting, dist).value, "id", allowable[k]) by {
      forall k | 0 <= k < |allowable| && ClosestRestriction(allowable[k], col, restricting, dist).Ok?
        ensures Matches(ClosestRestriction(allowable[k], col, restricting, dist).value, "id", allowable[k])
      {
        ClosestRestrictionFields(allowable[k], col, restricting, dist);
      }
    }
    seq(|allowable|, k requires 0 <= k < |allowable| => ClosestRestriction(allowable[k], col, restricting, dist))
  }

  /** Every record to insert has an `id`. */
  predicate Identified(results: seq<Result<Record>>) {
    forall k :: 0 <= k < |results| && results[k].Ok? ==> "id" in results[k].value
  }

  /** Lines 41-45 over the outcomes in order: each record is inserted if
      absent, and the first exception ends the loop. */
  function Insertions(docs: seq<Record>, results: seq<Result<Record>>): Run
    requires Identified(results)
  {
    if results == [] then Run(docs, None)
    else
      var prev := Insertions(docs, results[..|results| - 1]);
      if prev.failure.Some? then prev
      else match results[|results| - 1]
        case Err(f) => Run(prev.documents, Some(f))
        case Ok(node) => Run(InsertIfAbsent(prev.documents, node), None)
  }

  /** Lines 40-45 for the given collections. */
  function Iterated(docs: seq<Record>, allowable: seq<Value>, col: seq<Record>, restricting: seq<Value>, dist: Distance): Run
    requires Located(col)
  {
    Insertions(docs, Verdicts(allowable, col, restricting, dist))
  }

  /** Lines 40-48. */
  method IterateNodesList(allowable: seq<Value>, restricting: seq<Value>, nodes: seq<Record>, nodesFinal: Collection, dist: Distance)
    returns (failure: Option<Failure>)
    requires Located(nodes)
    modifies nodesFinal
    ensures Run(nodesFinal.documents, failure) == Iterated(old(nodesFinal.documents), allowable, nodes, restricting, dist)
  {
    ghost var docs0 := nodesFinal.documents;
    ghost var v := Verdicts(allowable, nodes, restricting, dist);
    for i := 0 to |allowable|
      invariant Insertions(docs0, v[..i]) == Run(nodesFinal.documents, None)
    {
      assert v[..i + 1][..i] == v[..i];
      var nodeFinal := FindClosestRestriction(allowable[i], nodes, restricting, dist);
      assert v[..i + 1][i] == nodeFinal;
      if nodeFinal.Err? {
        failure := Some(nodeFinal.failure);
        InsertionsStop(docs0, v, i + 1);
        return;
      }
      InsertToCollection(nodeFinal.value, nodesFinal);
    }
    assert v[..|allowable|] == v;
    failure := None;
  }

  /** Once an attempt raises, the later outcomes are never used. */
  lemma {:induction false} InsertionsStop(docs: seq<Record>, results: seq<Result<Record>>, i: nat)
    requires Identified(results) && i <= |results|
    requires Insertions(docs, results[..i]).failure.Some?
    ensures Insertions(docs, results) == Insertions(docs, results[..i])
    decreases |results| - i
  {
    if i < |results| {
      assert results[..i + 1][..i] == results[..i];
      InsertionsStop(docs, results, i + 1);
    } else {
      assert results[..i] == results;
    }
  }

  /** The documents already in the collection stay, in place, and at most
      one document is added per attempt. */
  lemma {:induction false} InsertionsGrow(docs: seq<Record>, results: seq<Result<Record>>)
    requires Identified(results)
    ensures docs <= Insertions(docs, results).documents
    ensures |Insertions(docs, results).documents| <= |docs| + |results|
  {
    if results != [] {
      InsertionsGrow(docs, results[..|results| - 1]);
    }
  }

  /** When no attempt raises, every record's `id` has a document. */
  lemma {:induction false} InsertionsCover(docs: seq<Record>, results: seq<Result<Record>>)
    requires Identified(results) && Insertions(docs, results).failure.None?
    ensures forall k :: 0 <= k < |results| ==>
      results[k].Ok? && HasDocument(Insertions(docs, results).documents, results[k].value["id"])
  {
    if results != [] {
      var front := results[..|results| - 1];
      var prev := Insertions(docs, front);
      InsertionsCover(docs, front);
      var r := Insertions(docs, results).documents;
      assert prev.documents <= r;
      forall k | 0 <= k < |results| ensures results[k].Ok? && HasDocument(r, results[k].value["id"]) {
        if k < |front| {
          assert results[k] == front[k];
          var j :| 0 <= j < |prev.documents| && Matches(prev.documents[j], "id", results[k].value["id"]);
          assert r[j] == prev.documents[j];
        }
      }
    }
  }

  /** Starting from a collection without duplicate ids, none appear. */
  lemma {:induction false} InsertionsUnique(docs: seq<Record>, results: seq<Result<Record>>)
    requires Identified(results) && UniqueIds(docs)
    ensures UniqueIds(Insertions(docs, results).documents)
  {
    if results != [] {
      var front := results[..|results| - 1];
      InsertionsUnique(docs, front);
      var prev := Insertions(docs, front);
      if prev.failure.None? && results[|results| - 1].Ok? {
        InsertKeepsIdsUnique(prev.documents, results[|results| - 1].value);
      }
    }
  }

  /** The run ends with the exception of the first outcome that is one,
      and with none when no outcome is. */
  lemma {:induction false} InsertionsFailure(docs: seq<Record>, results: seq<Result<Record>>)
    requires Identified(results)
    ensures Insertions(docs, results).failure.None? <==> forall k :: 0 <= k < |results| ==> results[k].Ok?
    ensures Insertions(docs, results).failure.Some? ==>
      exists k :: 0 <= k < |results| && results[k].Err? && (forall j :: 0 <= j < k ==> results[j].Ok?)
        && Insertions(docs, results).failure.value == results[k].failure
  {
    if results != [] {
      var front := results[..|results| - 1];
      InsertionsFailure(docs, front);
      assert forall k :: 0 <= k < |front| ==> front[k] == results[k];
    }
  }

  /** iterate_nodes_list: every allowable id ends up in `nodes_final`
      unless an attempt raises, in which case the run stops at the first
      id whose classification raises; earlier documents stay and ids stay
      unique. */
  lemma IteratedProperties(docs: seq<Record>, allowable: seq<Value>, col: seq<Record>, restricting: seq<Value>, dist: Distance)
    requires Located(col)
    ensures var run := Iterated(docs, allowable, col, restricting, dist);
      && docs <= run.documents
      && |run.documents| <= |docs| + |allowable|
      && (UniqueIds(docs) ==> UniqueIds(run.documents))
      && (run.failure.None? <==> forall k :: 0 <= k < |allowable| ==> ClosestRestriction(allowable[k], col, restricting, dist).Ok?)
      && (run.failure.None? ==> forall k :: 0 <= k < |allowable| ==> HasDocument(run.documents, allowable[k]))
      && (run.failure.Some? ==>
            exists k :: (0 <= k < |allowable|
              && ClosestRestriction(allowable[k], col, restricting, dist).Err?
              && (forall j :: 0 <= j < k ==> ClosestRestriction(allowable[j], col, restricting, dist).Ok?)
              && run.failure.value == ClosestRestriction(allowable[k], col, restricting, dist).failure))
  {
    var v := Verdicts(allowable, col, restricting, dist);
    InsertionsGrow(docs, v);
    InsertionsFailure(docs, v);
    if UniqueIds(docs) {
      InsertionsUnique(docs, v);
    }
    if Insertions(docs, v).failure.None? {
      InsertionsCover(docs, v);
    }
  }

  // ---------------------------------------------------------------
  // get_nodes_from_way
  // ---------------------------------------------------------------

  const AllowableLanduse: seq<Value> := [Str("farmland"), Str("meadow"), Str("brownfield"), Str("orchard"), Str("grass")]
  const RestrictedLanduse: seq<Value> := [Str("residential"), Str("nature_reserve"), Str("construction"), Str("military")]

  /** Lines 20-27, past the connection: the allowable and the restricting
      node ids from `ways`, then the classification of every allowable one. */
  method GetNodesFromWay(ways: seq<Record>, nodes: seq<Record>, nodesFinal: Collection, dist: Distance)
    returns (failure: Option<Failure>)
    requires NodeListsAreLists(ways) && Located(nodes)
    modifies nodesFinal
    ensures var a, r := WayNodes(ways, AllowableLanduse), WayNodes(ways, RestrictedLanduse);
      if a.Err? then failure == Some(a.failure) && nodesFinal.documents == old(nodesFinal.documents)
      else if r.Err? then failure == Some(r.failure) && nodesFinal.documents == old(nodesFinal.documents)
      else Run(nodesFinal.documents, failure) == Iterated(old(nodesFinal.documents), a.value, nodes, r.value, dist)
  {
    var allowableNodes := QueryGetNodesFromWay(AllowableLanduse, ways);
    if allowableNodes.Err? {
      return Some(allowableNodes.failure);
    }
    var restrictingNodes := QueryGetNodesFromWay(RestrictedLanduse, ways);
    if restrictingNodes.Err? {
      return Some(restrictingNodes.failure);
    }
    failure := IterateNodesList(allowableNodes.value, restrictingNodes.value, nodes, nodesFinal, dist);
  }
}
