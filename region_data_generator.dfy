/** region_data_generator.py: the raw OSM elements of a region and its
    neighbours are split into nodes and ways, every node takes the way id
    and land use of the ways that contain it, and the nodes outside
    residential areas and nature reserves are kept when they lie at least
    500 m from every node of such an area. */
module RegionDataGenerator {
  import opened Values
  import opened Sequences
  import opened Scan
  import opened Osm
  import opened Text

  /** In kilometres: nodes closer than this to a restricting node are dropped. */
  const MinAllowableDistance: real := 0.5
  const NodeRelevantKeys: seq<string> := ["id", "lat", "lon"]
  const WayRelevantKeys: seq<string> := ["id", "nodes", "tags"]
  const ClosestField: string := "closest_distance_restriction"

  // ---------------------------------------------------------------
  // Splitting the elements (get_region_data)
  // ---------------------------------------------------------------

  predicate IsNodeElement(e: Record) {
    "type" in e && e["type"] == Str("node")
  }

  predicate IsWayElement(e: Record) {
    "type" in e && e["type"] == Str("way")
  }

  /** The shape Overpass returns: every element has a type, a node an id
      and a position, a way an id, a node list and a `landuse` tag. */
  predicate WellFormedElement(e: Record) {
    && "type" in e
    && (IsNodeElement(e) ==> "id" in e && HasPosition(e))
    && (IsWayElement(e) ==>
          "id" in e && HasNodeList(e) && "tags" in e && e["tags"].Dict? && "landuse" in e["tags"].entries)
  }

  /** A node element cut down to its id and position. */
  function RawNode(e: Record): Record {
    Project(e, NodeRelevantKeys)
  }

  /** A way element cut down to its id and node list, with its `landuse`
      tag lifted out of `tags`. */
  function WayOf(e: Record): Record
    requires WellFormedElement(e) && IsWayElement(e)
  {
    (Project(e, WayRelevantKeys) - {"tags"})["landuse" := e["tags"].entries["landuse"]]
  }

  /** The raw nodes the split yields, in element order. */
  function NodesOf(es: seq<Record>): seq<Record> {
    if es == [] then []
    else NodesOf(es[..|es| - 1]) + (if IsNodeElement(es[|es| - 1]) then [RawNode(es[|es| - 1])] else [])
  }

  /** The ways the split yields, in element order. */
  function WaysOf(es: seq<Record>): seq<Record>
    requires forall e :: e in es ==> WellFormedElement(e)
  {
    if es == [] then []
    else
      assert forall e :: e in es[..|es| - 1] ==> e in es;
      WaysOf(es[..|es| - 1]) + (if IsWayElement(es[|es| - 1]) then [WayOf(es[|es| - 1])] else [])
  }

  /** A node with the keys of `RawNode`. */
  predicate IsRawNode(n: Record) {
    "id" in n && HasPosition(n) && n.Keys <= {"id", "lat", "lon"}
  }

  /** A way with the keys of `Way`. */
  predicate IsWay(w: Record) {
    "id" in w && "landuse" in w && HasNodeList(w) && w.Keys <= {"id", "nodes", "landuse"}
  }

  /** `w` carries the id, node list and `landuse` tag of way element `e`. */
  predicate WayFrom(w: Record, e: Record) {
    && IsWayElement(e) && "id" in e && "nodes" in e && "tags" in e && e["tags"].Dict? && "landuse" in e["tags"].entries
    && "id" in w && "nodes" in w && "landuse" in w
    && w["id"] == e["id"] && w["nodes"] == e["nodes"] && w["landuse"] == e["tags"].entries["landuse"]
  }

  /** Every node the split yields has exactly the keys of `RawNode` and
      every way exactly those of `Way`, its land use being the element's
      `landuse` tag. */
  lemma {:induction false} SplitShapes(es: seq<Record>)
    requires forall e :: e in es ==> WellFormedElement(e)
    ensures forall j :: 0 <= j < |NodesOf(es)| ==> IsRawNode(NodesOf(es)[j])
    ensures forall w :: w in WaysOf(es) ==> IsWay(w)
    ensures forall w :: w in WaysOf(es) ==> exists e :: e in es && WayFrom(w, e)
  {
    if es != [] {
      var init, e := es[..|es| - 1], es[|es| - 1];
      assert forall x :: x in init ==> x in es;
      SplitShapes(init);
      assert e in es;
      if IsNodeElement(e) {
        assert IsRawNode(RawNode(e));
      }
      if IsWayElement(e) {
        assert WayFrom(WayOf(e), e);
        assert IsWay(WayOf(e));
      }
    }
  }

  /** The split keeps the order of the elements and the kind of each one:
      splitting two runs of elements one after the other is splitting
      their concatenation. */
  lemma {:induction false} SplitConcat(a: seq<Record>, b: seq<Record>)
    requires forall e :: e in a + b ==> WellFormedElement(e)
    ensures NodesOf(a + b) == NodesOf(a) + NodesOf(b)
    ensures WaysOf(a + b) == WaysOf(a) + WaysOf(b)
    decreases |b|
  {
    if b == [] {
      assert a + b == a;
    } else {
      var b', x := b[..|b| - 1], b[|b| - 1];
      assert (a + b)[..|a + b| - 1] == a + b';
      assert forall e :: e in b ==> e in a + b;
      assert forall e :: e in a + b' ==> e in a + b;
      assert b[..|b| - 1] == b';
      SplitConcat(a, b');
    }
  }

  /** Lines 198-205: the loop over the elements. */
  method SplitElements(elements: seq<Record>) returns (rawNodes: seq<Record>, ways: seq<Record>)
    requires forall e :: e in elements ==> WellFormedElement(e)
    ensures rawNodes == NodesOf(elements)
    ensures ways == WaysOf(elements)
  {
    rawNodes, ways := [], [];
    for i := 0 to |elements|
      invariant rawNodes == NodesOf(elements[..i])
      invariant ways == WaysOf(elements[..i])
    {
      assert elements[..i + 1][..i] == elements[..i];
      var element := elements[i];
      assert element in elements;
      if element["type"] == Str("node") {
        rawNodes := rawNodes + [RawNode(element)];
      } else if element["type"] == Str("way") {
        ways := ways + [WayOf(element)];
      }
    }
    assert elements[..|elements|] == elements;
  }

  // ---------------------------------------------------------------
  // Joining nodes and ways (get_region_nodes)
  // ---------------------------------------------------------------

  /** A node after the inner loop over `ways`: each way containing it
      overwrites `way_id` and `landuse`, so the last such way decides. */
  function Joined(node: Record, ways: seq<Record>): (r: Record)
    requires "id" in node
    requires forall w :: w in ways ==> IsWay(w)
    ensures forall k :: k in node && k != "way_id" && k != "landuse" ==> k in r && r[k] == node[k]
    ensures forall k :: k in r ==> k in node || k == "way_id" || k == "landuse"
  {
    match LastWayContaining(ways, node["id"])
    case None => node
    case Some(k) =>
      assert ways[k] in ways;
      SetWay(node, ways[k])
  }

  /** Lines 223-224: the node takes the way's id and land use. */
  function SetWay(node: Record, way: Record): (r: Record)
    requires IsWay(way)
    ensures r.Keys == node.Keys + {"way_id", "landuse"}
    ensures r["way_id"] == way["id"] && r["landuse"] == way["landuse"]
    ensures forall k :: k in node && k != "way_id" && k != "landuse" ==> r[k] == node[k]
  {
    node["way_id" := way["id"]]["landuse" := way["landuse"]]
  }

  /** A second way overwrites everything the first one set. */
  lemma SetWayTwice(node: Record, a: Record, b: Record)
    requires IsWay(a) && IsWay(b)
    ensures SetWay(SetWay(node, a), b) == SetWay(node, b)
  {
  }

  /** The join leaves a node alone when no way holds it, and otherwise
      gives it the id and land use of the last way that does. */
  lemma JoinedFromLastWay(node: Record, ways: seq<Record>, k: nat)
    requires "id" in node
    requires forall w :: w in ways ==> IsWay(w)
    requires k < |ways| && InWay(ways[k], node["id"])
    requires forall m :: k < m < |ways| ==> !InWay(ways[m], node["id"])
    ensures "id" in ways[k] && "landuse" in ways[k]
    ensures Joined(node, ways) == SetWay(node, ways[k])
  {
    assert ways[k] in ways;
    var r := LastWayContaining(ways, node["id"]);
    assert r == Some(k) by {
      if r.Some? && r.value < k { }
    }
  }

  lemma JoinedAlone(node: Record, ways: seq<Record>)
    requires "id" in node
    requires forall w :: w in ways ==> IsWay(w)
    requires forall m :: 0 <= m < |ways| ==> !InWay(ways[m], node["id"])
    ensures Joined(node, ways) == node
  {
  }

  /** A way that holds `id` and whose land use is not buildable. */
  predicate Restricts(id: Value, w: Record) {
    InWay(w, id) && "landuse" in w && w["landuse"] in NoBuildableLands
  }

  /** The ways of `ways` that hold `id` and whose land use is not buildable. */
  function RestrictingWays(ways: seq<Record>, id: Value): seq<Record> {
    Filter(ways, (w: Record) => Restricts(id, w))
  }

  lemma RestrictingWaysStep(ways: seq<Record>, k: nat, id: Value)
    requires k < |ways|
    ensures |RestrictingWays(ways[..k + 1], id)| == |RestrictingWays(ways[..k], id)| + if Restricts(id, ways[k]) then 1 else 0
  {
    assert ways[..k + 1] == ways[..k] + [ways[k]];
    FilterSnoc(ways[..k], ways[k], (w: Record) => Restricts(id, w));
  }

  function Repeat(j: nat, c: nat): (r: seq<nat>)
    ensures |r| == c && forall k :: 0 <= k < c ==> r[k] == j
  {
    seq(c, _ => j)
  }

  /** The list `restricting_nodes` after the first `n` nodes: node `j`
      once for each restricting way that holds it, as indices of `store`. */
  function RestrictingIndices(store: seq<Record>, ways: seq<Record>, n: nat): seq<nat>
    requires n <= |store|
    requires forall j :: 0 <= j < |store| ==> "id" in store[j]
  {
    if n == 0 then []
    else RestrictingIndices(store, ways, n - 1) + Repeat(n - 1, |RestrictingWays(ways, store[n - 1]["id"])|)
  }

  /** A node appears in `restricting_nodes` as often as restricting ways
      hold it, whatever land use the join leaves it with. */
  lemma {:induction false} RestrictingMultiplicity(store: seq<Record>, ways: seq<Record>, n: nat, j: nat)
    requires n <= |store|
    requires forall i :: 0 <= i < |store| ==> "id" in store[i]
    ensures forall k :: 0 <= k < |RestrictingIndices(store, ways, n)| ==> RestrictingIndices(store, ways, n)[k] < n
    ensures multiset(RestrictingIndices(store, ways, n))[j]
         == if j < n then |RestrictingWays(ways, store[j]["id"])| else 0
  {
    if n > 0 {
      RestrictingMultiplicity(store, ways, n - 1, j);
      var c := |RestrictingWays(ways, store[n - 1]["id"])|;
      RepeatMultiplicity(n - 1, c, j);
    }
  }

  lemma {:induction false} RepeatMultiplicity(i: nat, c: nat, j: nat)
    ensures multiset(Repeat(i, c))[j] == if i == j then c else 0
  {
    if c > 0 {
      assert Repeat(i, c) == Repeat(i, c - 1) + [i];
      RepeatMultiplicity(i, c - 1, j);
    }
  }

  predicate AllHaveLanduse(store: seq<Record>) {
    forall j :: 0 <= j < |store| ==> "landuse" in store[j]
  }

  predicate Buildable(store: seq<Record>, j: nat) {
    j < |store| && "landuse" in store[j] && store[j]["landuse"] !in NoBuildableLands
  }

  /** Line 229: the nodes whose land use is buildable, in order. */
  function CandidateIndices(store: seq<Record>): seq<nat> {
    Filter(Range(|store|), (j: nat) => Buildable(store, j))
  }

  /** A node is a candidate exactly when its land use is buildable, and
      then once. */
  lemma CandidateMember(store: seq<Record>, j: nat)
    ensures j in CandidateIndices(store) <==> Buildable(store, j)
    ensures multiset(CandidateIndices(store))[j] == if Buildable(store, j) then 1 else 0
  {
    FilterMultiplicity(Range(|store|), (j: nat) => Buildable(store, j), j);
    RangeMultiplicity(|store|, j);
  }

  lemma {:induction false} RangeMultiplicity(n: nat, j: nat)
    ensures multiset(Range(n))[j] == if j < n then 1 else 0
  {
    if n > 0 {
      RangeMultiplicity(n - 1, j);
    }
  }

  // ---------------------------------------------------------------
  // The distance restriction (add_closest_distance_restriction)
  // ---------------------------------------------------------------

  /** Every listed node exists and has a position. */
  predicate Measurable(store: seq<Record>, idx: seq<nat>) {
    && (forall j :: j in idx ==> j < |store| && HasPosition(store[j]))
    && (forall k :: 0 <= k < |idx| ==> idx[k] < |store| && HasPosition(store[idx[k]]))
  }

  function Positions(store: seq<Record>, idx: seq<nat>): seq<Point>
    requires Measurable(store, idx)
  {
    seq(|idx|, k requires 0 <= k < |idx| => Position(store[idx[k]]))
  }

  /** What the inner loop leaves in `closest_distance` for node `j`. */
  function ClosestFor(store: seq<Record>, j: nat, restricting: seq<nat>, dist: Distance): real
    requires j < |store| && HasPosition(store[j]) && Measurable(store, restricting)
  {
    ClosestOrZero(Dists(Position(store[j]), Positions(store, restricting), dist), MinAllowableDistance)
  }

  /** The nodes after line 255 has run for every node of `region`. */
  function WithClosest(store: seq<Record>, region: seq<nat>, restricting: seq<nat>, dist: Distance): seq<Record>
    requires Measurable(store, region) && Measurable(store, restricting)
  {
    seq(|store|, j requires 0 <= j < |store| =>
      if j in region then store[j][ClosestField := ClosestValue(ClosestFor(store, j, restricting, dist))]
      else store[j])
  }

  /** Node `j` passes the test of line 257. */
  predicate KeptAt(store: seq<Record>, restricting: seq<nat>, dist: Distance, j: nat) {
    j < |store| && HasPosition(store[j]) && Measurable(store, restricting)
    && ClosestFor(store, j, restricting, dist) != 0.0
  }

  /** Line 257: the nodes of `region` that are far enough from every restriction. */
  function Kept(store: seq<Record>, region: seq<nat>, restricting: seq<nat>, dist: Distance): seq<nat> {
    Filter(region, (j: nat) => KeptAt(store, restricting, dist, j))
  }

  /** A node of the region survives exactly when there is at least one
      restricting node and every restricting node is at least 500 m away;
      with no restricting node at all, nothing survives. */
  lemma KeptIff(store: seq<Record>, region: seq<nat>, restricting: seq<nat>, dist: Distance, j: nat)
    requires Measurable(store, region) && Measurable(store, restricting)
    ensures j in Kept(store, region, restricting, dist) <==>
      j in region && |restricting| > 0 &&
      forall k :: 0 <= k < |restricting| ==>
        dist(Position(store[j]), Position(store[restricting[k]])) as real >= MinAllowableDistance
  {
    FilterMultiplicity(region, (j: nat) => KeptAt(store, restricting, dist, j), j);
    if j in region {
      var ds := Dists(Position(store[j]), Positions(store, restricting), dist);
      assert forall k :: 0 <= k < |restricting| ==>
        ds[k] == dist(Position(store[j]), Position(store[restricting[k]])) as real;
    }
  }

  /** A surviving node carries its distance to the nearest restricting node. */
  lemma KeptCarriesNearest(store: seq<Record>, region: seq<nat>, restricting: seq<nat>, dist: Distance, j: nat)
    requires Measurable(store, region) && Measurable(store, restricting)
    requires j in Kept(store, region, restricting, dist)
    ensures j in region && HasPosition(store[j])
    ensures j < |store| && ClosestField in WithClosest(store, region, restricting, dist)[j]
    ensures var c := WithClosest(store, region, restricting, dist)[j][ClosestField];
      c.Real? &&
      (exists k :: 0 <= k < |restricting| && c.r == dist(Position(store[j]), Position(store[restricting[k]])) as real) &&
      (forall k :: 0 <= k < |restricting| ==> c.r <= dist(Position(store[j]), Position(store[restricting[k]])) as real)
  {
    FilterMultiplicity(region, (j: nat) => KeptAt(store, restricting, dist, j), j);
    var ds := Dists(Position(store[j]), Positions(store, restricting), dist);
    var c := ClosestFor(store, j, restricting, dist);
    assert forall k :: 0 <= k < |restricting| ==>
      ds[k] == dist(Position(store[j]), Position(store[restricting[k]])) as real;
    var k :| 0 <= k < |ds| && ds[k] == c;
    assert WithClosest(store, region, restricting, dist)[j][ClosestField] == Real(c);
  }

  /** Two stores whose nodes sit at the same positions. */
  predicate SamePositions(s: seq<Record>, t: seq<Record>) {
    |s| == |t| &&
    forall j :: 0 <= j < |s| ==> HasPosition(s[j]) == HasPosition(t[j]) && (HasPosition(s[j]) ==> Position(s[j]) == Position(t[j]))
  }

  lemma ClosestForPositions(s: seq<Record>, t: seq<Record>, j: nat, restricting: seq<nat>, dist: Distance)
    requires SamePositions(s, t)
    requires j < |s| && HasPosition(s[j]) && Measurable(s, restricting)
    ensures Measurable(t, restricting) && ClosestFor(s, j, restricting, dist) == ClosestFor(t, j, restricting, dist)
  {
    assert Positions(s, restricting) == Positions(t, restricting);
  }

  /** Lines 241-253: the inner loop for node `j`. */
  method ClosestDistance(nodes: array<Record>, j: nat, restricting: seq<nat>, dist: Distance)
    returns (closest: real, ghost examined: nat)
    requires j < nodes.Length && HasPosition(nodes[j]) && Measurable(nodes[..], restricting)
    ensures closest == ClosestFor(nodes[..], j, restricting, dist)
    ensures var ds := Dists(Position(nodes[j]), Positions(nodes[..], restricting), dist);
      examined == if HasBelow(ds, MinAllowableDistance) then FirstBelow(ds, MinAllowableDistance) + 1 else |ds|
  {
    ghost var ds := Dists(Position(nodes[j]), Positions(nodes[..], restricting), dist);
    closest := 0.0;
    var k := 0;
    while k < |restricting|
      invariant 0 <= k <= |restricting| == |ds|
      invariant MinSoFar(ds, k, MinAllowableDistance, closest)
    {
      var current := dist(Position(nodes[j]), Position(nodes[restricting[k]])) as real;
      assert current == ds[k] by {
        assert nodes[restricting[k]] == nodes[..][restricting[k]];
      }
      if current < MinAllowableDistance {
        MinStopped(ds, k, MinAllowableDistance, closest);
      } else {
        MinStep(ds, k, MinAllowableDistance, closest);
      }
      if closest == 0.0 {
        closest := current;
      }
      if current < MinAllowableDistance {
        closest := 0.0;
        examined := k + 1;
        return;
      } else if closest > current {
        closest := current;
      }
      k := k + 1;
    }
    MinDone(ds, MinAllowableDistance, closest);
    examined := k;
  }

  /** Lines 233-257. */
  method AddClosestDistanceRestriction(nodes: array<Record>, regionNodes: seq<nat>, restrictingNodes: seq<nat>,
                                       dist: Distance) returns (kept: seq<nat>)
    requires Measurable(nodes[..], regionNodes) && Measurable(nodes[..], restrictingNodes)
    modifies nodes
    ensures nodes[..] == WithClosest(old(nodes[..]), regionNodes, restrictingNodes, dist)
    ensures kept == Kept(old(nodes[..]), regionNodes, restrictingNodes, dist)
  {
    ghost var s0 := nodes[..];
    MeasurablePrefix(s0, regionNodes, 0);
    WithClosestNone(s0, restrictingNodes, dist);
    for i := 0 to |regionNodes|
      invariant Measurable(s0, regionNodes[..i])
      invariant nodes[..] == WithClosest(s0, regionNodes[..i], restrictingNodes, dist)
    {
      var j := regionNodes[i];
      MeasurablePrefix(s0, regionNodes, i + 1);
      WithClosestStep(s0, regionNodes, i, restrictingNodes, dist);
      ClosestForPositions(s0, nodes[..], j, restrictingNodes, dist);
      var closest;
      ghost var examined;
      closest, examined := ClosestDistance(nodes, j, restrictingNodes, dist);
      ghost var before := nodes[..];
      assert closest == ClosestFor(s0, j, restrictingNodes, dist);
      nodes[j] := nodes[j][ClosestField := ClosestValue(closest)];
      assert nodes[..] == before[j := before[j][ClosestField := ClosestValue(closest)]];
    }
    assert regionNodes[..|regionNodes|] == regionNodes;
    var final := nodes[..];
    kept := Filter(regionNodes, (j: nat) => j < |final| && ClosestField in final[j] && final[j][ClosestField] != Int(0));
    FilterCongruence(regionNodes,
      (j: nat) => j < |final| && ClosestField in final[j] && final[j][ClosestField] != Int(0),
      (j: nat) => KeptAt(s0, restrictingNodes, dist, j));
  }

  lemma MeasurablePrefix(store: seq<Record>, idx: seq<nat>, i: nat)
    requires Measurable(store, idx) && i <= |idx|
    ensures Measurable(store, idx[..i])
  {
    forall j | j in idx[..i] ensures j < |store| && HasPosition(store[j]) {
      var k :| 0 <= k < i && idx[..i][k] == j;
      assert idx[k] == j;
    }
  }

  /** Before the loop no node has the field. */
  lemma WithClosestNone(store: seq<Record>, restricting: seq<nat>, dist: Distance)
    requires Measurable(store, restricting)
    ensures WithClosest(store, [], restricting, dist) == store
  {
  }

  /** Line 255 for one more node: only that node changes, and it takes the
      field whether or not it had it already. */
  lemma WithClosestStep(store: seq<Record>, region: seq<nat>, i: nat, restricting: seq<nat>, dist: Distance)
    requires i < |region| && Measurable(store, region[..i + 1]) && Measurable(store, restricting)
    ensures Measurable(store, region[..i])
    ensures var j, before := region[i], WithClosest(store, region[..i], restricting, dist);
      && j < |store| && HasPosition(store[j]) && |before| == |store|
      && SamePositions(store, before)
      && var v := ClosestValue(ClosestFor(store, j, restricting, dist));
      && before[j][ClosestField := v] == store[j][ClosestField := v]
      && WithClosest(store, region[..i + 1], restricting, dist) == before[j := store[j][ClosestField := v]]
  {
    assert region[..i + 1] == region[..i] + [region[i]];
    assert forall j :: j in region[..i] ==> j in region[..i + 1];
    assert region[i] in region[..i + 1];
    var j := region[i];
    var v := ClosestValue(ClosestFor(store, j, restricting, dist));
    Overwrite(store[j], ClosestField, v);
  }

  lemma Overwrite(m: Record, k: string, v: Value)
    ensures m[k := v][k := v] == m[k := v]
  {
  }

  /** The nodes after the nested loops of lines 220-227. */
  function JoinAll(store: seq<Record>, ways: seq<Record>): (r: seq<Record>)
    requires forall j :: 0 <= j < |store| ==> "id" in store[j]
    requires forall w :: w in ways ==> IsWay(w)
    ensures SamePositions(store, r)
  {
    seq(|store|, j requires 0 <= j < |store| => Joined(store[j], ways))
  }

  predicate IsRawNodeStore(store: seq<Record>) {
    forall j :: 0 <= j < |store| ==> "id" in store[j] && HasPosition(store[j])
  }

  /** Lines 221-227: the inner loop for node `i`. It returns what the loop
      appends to `restricting_nodes`. */
  method JoinNode(nodes: array<Record>, i: nat, ways: seq<Record>) returns (appended: seq<nat>)
    requires i < nodes.Length && "id" in nodes[i]
    requires forall w :: w in ways ==> IsWay(w)
    modifies nodes
    ensures nodes[i] == Joined(old(nodes[i]), ways)
    ensures forall j :: 0 <= j < nodes.Length && j != i ==> nodes[j] == old(nodes[j])
    ensures appended == Repeat(i, |RestrictingWays(ways, old(nodes[i])["id"])|)
  {
    ghost var node := nodes[i];
    var id := node["id"];
    appended := [];
    for k := 0 to |ways|
      invariant forall w :: w in ways[..k] ==> w in ways
      invariant forall j :: 0 <= j < nodes.Length && j != i ==> nodes[j] == old(nodes[j])
      invariant nodes[i] == Joined(node, ways[..k])
      invariant appended == Repeat(i, |RestrictingWays(ways[..k], id)|)
    {
      var way := ways[k];
      assert way in ways;
      JoinStep(node, ways, k);
      RestrictingWaysStep(ways, k, id);
      if InWay(way, nodes[i]["id"]) {
        nodes[i] := SetWay(nodes[i], way);
        if way["landuse"] in NoBuildableLands {
          assert Repeat(i, |appended| + 1) == appended + [i];
          appended := appended + [i];
        }
      }
    }
    assert ways[..|ways|] == ways;
  }

  /** One more way in the inner loop. */
  lemma JoinStep(node: Record, ways: seq<Record>, k: nat)
    requires "id" in node && k < |ways|
    requires forall w :: w in ways ==> IsWay(w)
    ensures forall w :: w in ways[..k + 1] ==> w in ways
    ensures forall w :: w in ways[..k] ==> w in ways
    ensures Joined(node, ways[..k + 1])
         == if InWay(ways[k], node["id"]) then SetWay(Joined(node, ways[..k]), ways[k]) else Joined(node, ways[..k])
  {
    assert forall w :: w in ways[..k + 1] ==> w in ways;
    assert forall w :: w in ways[..k] ==> w in ways;
    assert ways[k] in ways;
    LastWayContainingStep(ways, k, node["id"]);
    match LastWayContaining(ways[..k], node["id"])
    case None =>
    case Some(m) =>
      assert ways[..k][m] in ways;
      SetWayTwice(node, ways[..k][m], ways[k]);
  }

  /** What get_region_nodes leaves behind: the node dicts at the end, and
      the surviving candidates and the restricting list as indices of them. */
  datatype Outcome = Outcome(final: seq<Record>, available: seq<nat>, restricting: seq<nat>)

  /** Lines 211-230 as one value. */
  function RegionNodes(raw: seq<Record>, ways: seq<Record>, dist: Distance): (r: Result<Outcome>)
    requires IsRawNodeStore(raw)
    requires forall w :: w in ways ==> IsWay(w)
    ensures r.Err? ==> r.failure == MissingKey("landuse")
    ensures r.Ok? ==> |r.value.final| == |raw|
    ensures r.Ok? ==> forall j :: j in r.value.available ==> j < |raw|
    ensures r.Ok? ==> forall j :: j in r.value.restricting ==> j < |raw|
  {
    var joined := JoinAll(raw, ways);
    if !AllHaveLanduse(joined) then Err(MissingKey("landuse"))
    else
      var candidates := CandidateIndices(joined);
      var restricting := RestrictingIndices(raw, ways, |raw|);
      CandidatesMeasurable(joined);
      RestrictingMeasurable(raw, ways, joined);
      KeptWithin(joined, candidates, restricting, dist);
      Ok(Outcome(WithClosest(joined, candidates, restricting, dist), Kept(joined, candidates, restricting, dist), restricting))
  }

  lemma CandidatesMeasurable(store: seq<Record>)
    requires forall j :: 0 <= j < |store| ==> HasPosition(store[j])
    ensures Measurable(store, CandidateIndices(store))
  {
    forall j | j in CandidateIndices(store) ensures j < |store| {
      CandidateMember(store, j);
    }
    forall k | 0 <= k < |CandidateIndices(store)| ensures CandidateIndices(store)[k] < |store| {
      CandidateMember(store, CandidateIndices(store)[k]);
    }
  }

  lemma RestrictingMeasurable(raw: seq<Record>, ways: seq<Record>, store: seq<Record>)
    requires IsRawNodeStore(raw) && |store| == |raw|
    requires forall j :: 0 <= j < |store| ==> HasPosition(store[j])
    ensures Measurable(store, RestrictingIndices(raw, ways, |raw|))
  {
    RestrictingMultiplicity(raw, ways, |raw|, 0);
  }

  lemma KeptWithin(store: seq<Record>, region: seq<nat>, restricting: seq<nat>, dist: Distance)
    ensures forall j :: j in Kept(store, region, restricting, dist) ==> j in region
  {
    forall j | j in Kept(store, region, restricting, dist) ensures j in region {
      FilterMultiplicity(region, (j: nat) => KeptAt(store, restricting, dist, j), j);
    }
  }

  /** get_region_nodes fails exactly when some node lies in no way: such
      a node never gets a `landuse`, and line 229 reads it. */
  lemma RegionNodesFails(raw: seq<Record>, ways: seq<Record>, dist: Distance)
    requires IsRawNodeStore(raw) && forall j :: 0 <= j < |raw| ==> IsRawNode(raw[j])
    requires forall w :: w in ways ==> IsWay(w)
    ensures RegionNodes(raw, ways, dist).Err? <==>
      exists j :: 0 <= j < |raw| && forall k :: 0 <= k < |ways| ==> !InWay(ways[k], raw[j]["id"])
  {
    var joined := JoinAll(raw, ways);
    forall j | 0 <= j < |raw|
      ensures "landuse" in joined[j] <==> exists k :: 0 <= k < |ways| && InWay(ways[k], raw[j]["id"])
    {
      assert "landuse" !in raw[j];
      match LastWayContaining(ways, raw[j]["id"])
      case None =>
      case Some(m) =>
        assert ways[m] in ways;
    }
  }

  /** A node is available exactly when it is buildable after the join,
      some restricting node exists and every restricting node is at least
      500 m away. */
  lemma AvailableIff(raw: seq<Record>, ways: seq<Record>, dist: Distance, j: nat)
    requires IsRawNodeStore(raw)
    requires forall w :: w in ways ==> IsWay(w)
    requires RegionNodes(raw, ways, dist).Ok?
    ensures var o := RegionNodes(raw, ways, dist).value;
      j in o.available <==>
        && j < |raw|
        && Buildable(JoinAll(raw, ways), j)
        && |o.restricting| > 0
        && forall k :: 0 <= k < |o.restricting| ==>
             o.restricting[k] < |raw| &&
             dist(Position(raw[j]), Position(raw[o.restricting[k]])) as real >= MinAllowableDistance
  {
    var joined := JoinAll(raw, ways);
    var o := RegionNodes(raw, ways, dist).value;
    CandidatesMeasurable(joined);
    RestrictingMeasurable(raw, ways, joined);
    CandidateMember(joined, j);
    KeptIff(joined, CandidateIndices(joined), o.restricting, dist, j);
  }

  /** Lines 220-227: the nested loops join every node in place and list
      the restricting ones, once per restricting way. */
  method JoinNodes(nodes: array<Record>, ways: seq<Record>) returns (restricting: seq<nat>)
    requires IsRawNodeStore(nodes[..])
    requires forall w :: w in ways ==> IsWay(w)
    modifies nodes
    ensures nodes[..] == JoinAll(old(nodes[..]), ways)
    ensures restricting == RestrictingIndices(old(nodes[..]), ways, nodes.Length)
  {
    ghost var s0 := nodes[..];
    restricting := [];
    for i := 0 to nodes.Length
      invariant forall j :: 0 <= j < nodes.Length ==> nodes[j] == if j < i then Joined(s0[j], ways) else s0[j]
      invariant restricting == RestrictingIndices(s0, ways, i)
    {
      var appended := JoinNode(nodes, i, ways);
      restricting := restricting + appended;
    }
    assert nodes[..] == JoinAll(s0, ways);
  }

  /** Lines 211-230, on the raw nodes held in `nodes`: the join of lines
      220-227 runs in place, then either line 229 stops on a node that no
      way holds, or the candidates get their distance restriction. The
      result lists the surviving candidates and the restricting nodes as
      indices of `nodes`. */
  method GetRegionNodes(nodes: array<Record>, ways: seq<Record>, dist: Distance)
    returns (r: Result<(seq<nat>, seq<nat>)>)
    requires IsRawNodeStore(nodes[..])
    requires forall w :: w in ways ==> IsWay(w)
    modifies nodes
    ensures var spec := RegionNodes(old(nodes[..]), ways, dist);
      match spec
      case Ok(o) => r == Ok((o.available, o.restricting)) && nodes[..] == o.final
      case Err(f) => r == Err(f) && nodes[..] == JoinAll(old(nodes[..]), ways)
  {
    ghost var s0 := nodes[..];
    var restricting := JoinNodes(nodes, ways);
    if forall j :: 0 <= j < nodes.Length ==> "landuse" in nodes[j] {
      var candidates := CandidateIndices(nodes[..]);
      CandidatesMeasurable(nodes[..]);
      RestrictingMeasurable(s0, ways, nodes[..]);
      var kept := AddClosestDistanceRestriction(nodes, candidates, restricting, dist);
      r := Ok((kept, restricting));
    } else {
      r := Err(MissingKey("landuse"));
    }
  }

  /** `{"available nodes": ..., "restricting nodes": ...}` */
  datatype Region = Region(availableNodes: seq<Record>, restrictingNodes: seq<Record>)

  function Select(store: seq<Record>, idx: seq<nat>): (r: seq<Record>)
    requires forall j :: j in idx ==> j < |store|
    ensures |r| == |idx| && forall k :: 0 <= k < |idx| ==> idx[k] in idx && r[k] == store[idx[k]]
  {
    seq(|idx|, k requires 0 <= k < |idx| => assert idx[k] in idx; store[idx[k]])
  }

  /** Lines 186-208 as one value. */
  function RegionData(elements: seq<Record>, dist: Distance): Result<Region>
    requires forall e :: e in elements ==> WellFormedElement(e)
  {
    SplitShapes(elements);
    match RegionNodes(NodesOf(elements), WaysOf(elements), dist)
    case Err(f) => Err(f)
    case Ok(o) => Ok(Region(Select(o.final, o.available), Select(o.final, o.restricting)))
  }

  /** Lines 186-208, with the raw nodes held in an array so that the
      restricting list and the node list share the same dicts. */
  method GetRegionData(elements: seq<Record>, dist: Distance) returns (r: Result<Region>)
    requires forall e :: e in elements ==> WellFormedElement(e)
    ensures r == RegionData(elements, dist)
  {
    var rawNodes, ways := SplitElements(elements);
    SplitShapes(elements);
    var nodes := new Record[|rawNodes|](j requires 0 <= j < |rawNodes| => rawNodes[j]);
    assert nodes[..] == rawNodes;
    var result := GetRegionNodes(nodes, ways, dist);
    match result
    case Err(f) =>
      r := Err(f);
    case Ok((kept, restricting)) =>
      var final := nodes[..];
      r := Ok(Region(Select(final, kept), Select(final, restricting)));
  }

  // ---------------------------------------------------------------
  // The neighbour list (get_neighbour_data)
  // ---------------------------------------------------------------

  /** Line 132: the text that marks the line of `region`. */
  function Marker(region: string): string {
    region + " - "
  }

  /** Lines 133-135 on one matching line. */
  function NeighbourList(line: string, region: string): seq<string> {
    var raw := RSplit(Replace(RStrip(line, {' ', '\n'}), Marker(region), ""), "; ");
    StripSemicolons(Filter(raw, (x: string) => x != ""))
  }

  /** The last of `lines` holding `pat`, if any. */
  function LastMatching(lines: seq<string>, pat: string): (r: Option<nat>)
    ensures r.None? <==> forall k :: 0 <= k < |lines| ==> !Contains(lines[k], pat)
    ensures r.Some? ==> r.value < |lines| && Contains(lines[r.value], pat)
    ensures r.Some? ==> forall k :: r.value < k < |lines| ==> !Contains(lines[k], pat)
  {
    if lines == [] then None
    else if Contains(lines[|lines| - 1], pat) then Some(|lines| - 1)
    else LastMatching(lines[..|lines| - 1], pat)
  }

  /** Lines 125-137 on the lines of the file. */
  function NeighbourData(lines: seq<string>, region: string): Result<seq<string>> {
    match LastMatching(lines, Marker(region))
    case None => Err(Unbound("neighbours_list"))
    case Some(k) => Ok(NeighbourList(lines[k], region))
  }

  /** Lines 130-137: each matching line overwrites `neighbours_list`. */
  method GetNeighbourData(lines: seq<string>, region: string) returns (r: Result<seq<string>>)
    ensures r == NeighbourData(lines, region)
  {
    var neighbours: Option<seq<string>> := None;
    for i := 0 to |lines|
      invariant neighbours == match LastMatching(lines[..i], Marker(region))
                              case None => None
                              case Some(k) => Some(NeighbourList(lines[k], region))
    {
      assert lines[..i + 1][..i] == lines[..i];
      var line := lines[i];
      if Contains(line, region + " - ") {
        neighbours := Some(NeighbourList(line, region));
      }
    }
    assert lines[..|lines|] == lines;
    match neighbours
    case None => r := Err(Unbound("neighbours_list"));
    case Some(list) => r := Ok(list);
  }

  /** The result comes from the last line that holds the marker, and it
      is an error exactly when no line does. */
  lemma NeighbourDataLastLine(lines: seq<string>, region: string, k: nat)
    requires k < |lines| && Contains(lines[k], Marker(region))
    requires forall m :: k < m < |lines| ==> !Contains(lines[m], Marker(region))
    ensures NeighbourData(lines, region) == Ok(NeighbourList(lines[k], region))
  {
    var r := LastMatching(lines, Marker(region));
    assert r == Some(k) by {
      if r.Some? && r.value < k { }
    }
  }

  /** A line written as `region - a; b; c;` gives back the names, provided
      they are non-empty, hold no `;`, and the marker does not appear after
      the first one. */
  lemma NeighbourListRoundTrip(region: string, names: seq<string>)
    requires |names| > 0
    requires forall k :: 0 <= k < |names| ==> names[k] != "" && Free(names[k], ';')
    requires !Contains(Join(names, "; ") + ";", Marker(region))
    ensures NeighbourList(Marker(region) + Join(names, "; ") + ";\n", region) == names
  {
    var body := Join(names, "; ") + ";";
    var line := Marker(region) + Join(names, "; ") + ";\n";
    LineShape(Marker(region), Join(names, "; "));
    TrimLine(region, body);
    Unwrap(line, region, body);
    BodySplit(names);
    NamesBody(names, body);
  }

  lemma LineShape(a: string, b: string)
    ensures a + b + ";\n" == a + (b + ";") + "\n"
    ensures (b + ";")[|b + ";"| - 1] == ';'
  {
  }

  lemma BodySplit(names: seq<string>)
    requires |names| > 0
    requires forall k :: 0 <= k < |names| ==> Free(names[k], ';')
    ensures RSplit(Join(names, "; ") + ";", "; ") == names[..|names| - 1] + [names[|names| - 1] + ";"]
  {
    RSplitJoin(names, ";");
  }

  lemma TrimLine(region: string, body: string)
    requires |body| > 0 && body[|body| - 1] == ';'
    ensures RStrip(Marker(region) + body + "\n", {' ', '\n'}) == Marker(region) + body
  {
    RStripSuffix(Marker(region) + body, "\n", {' ', '\n'});
  }

  lemma Unwrap(line: string, region: string, body: string)
    requires RStrip(line, {' ', '\n'}) == Marker(region) + body
    requires !Contains(body, Marker(region))
    ensures NeighbourList(line, region) == StripSemicolons(Filter(RSplit(body, "; "), (x: string) => x != ""))
  {
    ReplacePrefix(Marker(region), body);
  }

  /** The part after the marker: split, filtered and stripped back into the names. */
  lemma NamesBody(names: seq<string>, body: string)
    requires |names| > 0
    requires forall k :: 0 <= k < |names| ==> names[k] != "" && Free(names[k], ';')
    requires RSplit(body, "; ") == names[..|names| - 1] + [names[|names| - 1] + ";"]
    ensures StripSemicolons(Filter(RSplit(body, "; "), (x: string) => x != "")) == names
  {
    var n := |names|;
    var raw := names[..n - 1] + [names[n - 1] + ";"];
    assert forall k :: 0 <= k < |raw| ==> raw[k] != "" by {
      forall k | 0 <= k < |raw| ensures raw[k] != "" {
        if k < n - 1 { assert raw[k] == names[k]; }
      }
    }
    FilterAll(raw, (x: string) => x != "");
    StripNames(names, raw);
  }
}
