/** main_to_send.py: the earlier revision of the region pipeline. Elements
    are picked by type, nodes take the way data of the last way holding
    them, and every node is tagged 0 or 1 depending on whether a
    residential or nature-reserve node lies within 1.56 km. */
module MainToSend {
  import opened Values
  import opened Sequences
  import opened Scan
  import opened Osm

  /** In kilometres: ten times the height of an average wind farm (line 276). */
  const MinAllowableDistance: real := 1.56

  // ---------------------------------------------------------------
  // get_list_data
  // ---------------------------------------------------------------

  predicate OfType(line: Record, keyName: string) {
    "type" in line && line["type"] == Str(keyName)
  }

  function ProjectAll(lines: seq<Record>, attributes: seq<string>): (r: seq<Record>)
    ensures |r| == |lines| && forall k :: 0 <= k < |lines| ==> r[k] == Project(lines[k], attributes)
  {
    seq(|lines|, k requires 0 <= k < |lines| => Project(lines[k], attributes))
  }

  /** Lines 129-138 as one value: `None` stands for the logged error. */
  function ListData(data: seq<Record>, keyName: string, attributes: seq<string>): Option<seq<Record>> {
    if keyName == "node" || keyName == "way" then
      Some(ProjectAll(Filter(data, (line: Record) => OfType(line, keyName)), attributes))
    else None
  }

  /** Lines 117-138. */
  method GetListData(data: seq<Record>, keyName: string, attributes: seq<string>) returns (r: Option<seq<Record>>)
    requires keyName == "node" || keyName == "way" ==> forall line :: line in data ==> "type" in line
    ensures r == ListData(data, keyName, attributes)
  {
    if keyName == "node" || keyName == "way" {
      var result := [];
      for i := 0 to |data|
        invariant result == ProjectAll(Filter(data[..i], (line: Record) => OfType(line, keyName)), attributes)
      {
        var line := data[i];
        assert line in data;
        assert data[..i + 1] == data[..i] + [line];
        FilterSnoc(data[..i], line, (line: Record) => OfType(line, keyName));
        if line["type"] == Str(keyName) {
          result := result + [Project(line, attributes)];
        }
      }
      assert data[..|data|] == data;
      r := Some(result);
    } else {
      r := None;
    }
  }

  /** Runs of elements are listed one after the other, so input order is kept. */
  lemma ListDataConcat(data: seq<Record>, more: seq<Record>, keyName: string, attributes: seq<string>)
    requires keyName == "node" || keyName == "way"
    ensures ListData(data + more, keyName, attributes).value
         == ListData(data, keyName, attributes).value + ListData(more, keyName, attributes).value
  {
    var p := (line: Record) => OfType(line, keyName);
    FilterConcat(data, more, p);
    var a, b := Filter(data, p), Filter(more, p);
    assert ProjectAll(a + b, attributes) == ProjectAll(a, attributes) + ProjectAll(b, attributes);
  }

  /** A record is listed exactly when it is the projection of an element
      of the requested type. */
  lemma ListDataMember(data: seq<Record>, keyName: string, attributes: seq<string>, x: Record)
    requires keyName == "node" || keyName == "way"
    ensures x in ListData(data, keyName, attributes).value <==>
      exists line :: line in data && OfType(line, keyName) && x == Project(line, attributes)
  {
    var p := (line: Record) => OfType(line, keyName);
    var f := Filter(data, p);
    if x in ProjectAll(f, attributes) {
      var k :| 0 <= k < |f| && ProjectAll(f, attributes)[k] == x;
      FilterMultiplicity(data, p, f[k]);
    }
    forall line | line in data && OfType(line, keyName) ensures Project(line, attributes) in ProjectAll(f, attributes) {
      FilterMultiplicity(data, p, line);
      var k :| 0 <= k < |f| && f[k] == line;
      assert ProjectAll(f, attributes)[k] == Project(line, attributes);
    }
  }

  // ---------------------------------------------------------------
  // search_ways and append_way_data
  // ---------------------------------------------------------------

  predicate HasLanduseTag(w: Record) {
    "tags" in w && w["tags"].Dict? && "landuse" in w["tags"].entries
  }

  /** What search_ways reads of a way: its node list, and for a way that
      holds the node its id and `landuse` tag. */
  predicate Searchable(ways: seq<Record>, id: Value) {
    forall w :: w in ways ==> HasNodeList(w) && (InWay(w, id) ==> "id" in w && HasLanduseTag(w))
  }

  /** Lines 171-178 as one value. */
  function WayData(ways: seq<Record>, id: Value): (r: Record)
    requires Searchable(ways, id)
  {
    match LastWayContaining(ways, id)
    case None => map[]
    case Some(k) =>
      assert ways[k] in ways;
      map["way_id" := ways[k]["id"], "landuse" := ways[k]["tags"].entries["landuse"]]
  }

  /** The way data is empty when no way holds the node and otherwise
      comes from the last way that does. */
  lemma WayDataFromLastWay(ways: seq<Record>, id: Value, k: nat)
    requires Searchable(ways, id)
    requires k < |ways| && InWay(ways[k], id)
    requires forall m :: k < m < |ways| ==> !InWay(ways[m], id)
    ensures "id" in ways[k] && HasLanduseTag(ways[k])
    ensures WayData(ways, id) == map["way_id" := ways[k]["id"], "landuse" := ways[k]["tags"].entries["landuse"]]
  {
    assert ways[k] in ways;
    var r := LastWayContaining(ways, id);
    assert r == Some(k) by {
      if r.Some? && r.value < k { }
    }
  }

  lemma WayDataEmpty(ways: seq<Record>, id: Value)
    requires Searchable(ways, id)
    ensures WayData(ways, id) == map[] <==> forall m :: 0 <= m < |ways| ==> !InWay(ways[m], id)
  {
    match LastWayContaining(ways, id)
    case None =>
    case Some(k) =>
      assert "way_id" in WayData(ways, id);
  }

  /** Lines 160-178: each way holding the node overwrites `result`. */
  method SearchWays(ways: seq<Record>, nodeId: Value) returns (result: Record)
    requires Searchable(ways, nodeId)
    ensures result == WayData(ways, nodeId)
  {
    result := map[];
    for i := 0 to |ways|
      invariant forall w :: w in ways[..i] ==> w in ways
      invariant result == WayData(ways[..i], nodeId)
    {
      var line := ways[i];
      assert line in ways;
      LastWayContainingStep(ways, i, nodeId);
      assert forall w :: w in ways[..i + 1] ==> w in ways;
      if nodeId in line["nodes"].items {
        result := result["way_id" := line["id"]];
        result := result["landuse" := line["tags"].entries["landuse"]];
        assert ways[..i + 1][i] == line;
      }
    }
    assert ways[..|ways|] == ways;
  }

  /** Lines 141-157: each node is updated in place with its way data. */
  method AppendWayData(nodes: array<Record>, ways: seq<Record>)
    requires forall j :: 0 <= j < nodes.Length ==> "id" in nodes[j] && Searchable(ways, nodes[j]["id"])
    modifies nodes
    ensures forall j :: 0 <= j < nodes.Length ==> nodes[j] == old(nodes[j]) + WayData(ways, old(nodes[j])["id"])
  {
    for i := 0 to nodes.Length
      invariant forall j :: 0 <= j < i ==> nodes[j] == old(nodes[j]) + WayData(ways, old(nodes[j])["id"])
      invariant forall j :: i <= j < nodes.Length ==> nodes[j] == old(nodes[j])
    {
      var currentId := nodes[i]["id"];
      var data := SearchWays(ways, currentId);
      nodes[i] := nodes[i] + data;
    }
  }

  /** The update keeps every other field and leaves a node that no way
      holds as it was. */
  lemma AppendedKeepsFields(node: Record, ways: seq<Record>)
    requires "id" in node && Searchable(ways, node["id"])
    ensures var r := node + WayData(ways, node["id"]);
      && (forall k :: k in node && k != "way_id" && k != "landuse" ==> k in r && r[k] == node[k])
      && ((forall m :: 0 <= m < |ways| ==> !InWay(ways[m], node["id"])) ==> r == node)
  {
    WayDataEmpty(ways, node["id"]);
    assert node + map[] == node;
  }

  // ---------------------------------------------------------------
  // get_filtered_nodes
  // ---------------------------------------------------------------

  /** Lines 256-270. */
  method GetFilteredNodes(dataNodes: seq<Record>, listFilterNodes: seq<Value>, dictKey: string)
    returns (filteredList: seq<Record>)
    requires forall n :: n in dataNodes ==> dictKey in n
    ensures filteredList == Filter(dataNodes, (n: Record) => dictKey in n && n[dictKey] in listFilterNodes)
  {
    filteredList := [];
    for i := 0 to |dataNodes|
      invariant filteredList == Filter(dataNodes[..i], (n: Record) => dictKey in n && n[dictKey] in listFilterNodes)
    {
      var node := dataNodes[i];
      assert node in dataNodes;
      assert dataNodes[..i + 1] == dataNodes[..i] + [node];
      FilterSnoc(dataNodes[..i], node, (n: Record) => dictKey in n && n[dictKey] in listFilterNodes);
      if node[dictKey] in listFilterNodes {
        filteredList := filteredList + [node];
      }
    }
    assert dataNodes[..|dataNodes|] == dataNodes;
  }

  /** The filter keeps a node exactly when its value for the key is one of
      the listed values, as often as it occurs, and keeps runs in order. */
  lemma FilteredNodesIff(dataNodes: seq<Record>, more: seq<Record>, listFilterNodes: seq<Value>, dictKey: string, x: Record)
    ensures var p := (n: Record) => dictKey in n && n[dictKey] in listFilterNodes;
      && (x in Filter(dataNodes, p) <==> x in dataNodes && dictKey in x && x[dictKey] in listFilterNodes)
      && multiset(Filter(dataNodes, p))[x] == (if dictKey in x && x[dictKey] in listFilterNodes then multiset(dataNodes)[x] else 0)
      && Filter(dataNodes + more, p) == Filter(dataNodes, p) + Filter(more, p)
  {
    var p := (n: Record) => dictKey in n && n[dictKey] in listFilterNodes;
    FilterMultiplicity(dataNodes, p, x);
    FilterConcat(dataNodes, more, p);
  }

  // ---------------------------------------------------------------
  // look_for_nearest_node
  // ---------------------------------------------------------------

  /** Lines 276-286 as one value on the distances it computes: the first
      distance under the limit gives tag 0, otherwise the tag is 1 and the
      distance is the last one computed. With no restriction at all,
      `result` is never assigned. */
  function NearestVerdict(ds: seq<real>): Result<(int, real)> {
    if ds == [] then Err(Unbound("result"))
    else if HasBelow(ds, MinAllowableDistance) then Ok((0, ds[FirstBelow(ds, MinAllowableDistance)]))
    else Ok((1, ds[|ds| - 1]))
  }

  /** Lines 272-286. */
  method LookForNearestNode(goal: Point, restrictions: seq<Point>, dist: Distance) returns (r: Result<(int, real)>)
    ensures r == NearestVerdict(Dists(goal, restrictions, dist))
  {
    ghost var ds := Dists(goal, restrictions, dist);
    var result: int := 0;
    var currentDistance: real := 0.0;
    var i := 0;
    while i < |restrictions|
      invariant 0 <= i <= |restrictions|
      invariant forall m :: 0 <= m < i ==> ds[m] >= MinAllowableDistance
      invariant i > 0 ==> result == 1 && currentDistance == ds[i - 1]
    {
      currentDistance := dist(goal, restrictions[i]) as real;
      assert currentDistance == ds[i];
      if currentDistance < MinAllowableDistance {
        result := 0;
        assert HasBelow(ds, MinAllowableDistance);
        return Ok((result, currentDistance));
      } else {
        result := 1;
      }
      i := i + 1;
    }
    if i == 0 {
      return Err(Unbound("result"));
    }
    r := Ok((result, currentDistance));
  }

  /** Tag 0 comes out exactly when some restriction is closer than 1.56 km,
      and it carries the first such distance; the call fails exactly when
      there is no restriction. */
  lemma NearestVerdictTag(ds: seq<real>)
    ensures NearestVerdict(ds).Err? <==> ds == []
    ensures NearestVerdict(ds).Ok? ==> (NearestVerdict(ds).value.0 == 0 <==> HasBelow(ds, MinAllowableDistance))
    ensures NearestVerdict(ds).Ok? ==> NearestVerdict(ds).value.0 in {0, 1}
    ensures NearestVerdict(ds).Ok? && NearestVerdict(ds).value.0 == 0 ==>
      exists k :: 0 <= k < |ds| && NearestVerdict(ds).value.1 == ds[k] && ds[k] < MinAllowableDistance &&
        forall m :: 0 <= m < k ==> ds[m] >= MinAllowableDistance
  {
    if ds != [] && HasBelow(ds, MinAllowableDistance) {
      var k := FirstBelow(ds, MinAllowableDistance);
      assert NearestVerdict(ds).value.1 == ds[k];
    }
  }

  /** With tag 1 the distance is the one to the last restriction, which
      need not be the nearest: for distances 2 and 3 the answer is 3. */
  lemma NearestVerdictNotMinimum()
    ensures NearestVerdict([2.0, 3.0]) == Ok((1, 3.0))
    ensures exists k :: 0 <= k < 2 && [2.0, 3.0][k] < NearestVerdict([2.0, 3.0]).value.1
  {
    var ds := [2.0, 3.0];
    assert !HasBelow(ds, MinAllowableDistance) by {
      forall k | 0 <= k < |ds| ensures ds[k] >= MinAllowableDistance { }
    }
    assert ds[0] < 3.0;
  }

  // ---------------------------------------------------------------
  // add_usage_tag
  // ---------------------------------------------------------------

  predicate IsRestricting(n: Record) {
    "landuse" in n && n["landuse"] in NoBuildableLands
  }

  function PositionsOf(nodes: seq<Record>): seq<Point>
    requires forall n :: n in nodes ==> HasPosition(n)
  {
    seq(|nodes|, k requires 0 <= k < |nodes| => assert nodes[k] in nodes; Position(nodes[k]))
  }

  predicate Tagable(data: seq<Record>) {
    forall n :: n in data ==> "landuse" in n && HasPosition(n)
  }

  /** The restrictions of line 244. */
  function Restrictions(data: seq<Record>): (r: seq<Record>)
    ensures forall n :: n in r ==> n in data && IsRestricting(n)
    ensures forall n :: n in data && IsRestricting(n) ==> n in r
  {
    var p := (n: Record) => "landuse" in n && n["landuse"] in NoBuildableLands;
    assert forall n :: n in Filter(data, p) <==> n in data && IsRestricting(n) by {
      forall n ensures n in Filter(data, p) <==> n in data && IsRestricting(n) {
        FilterMultiplicity(data, p, n);
      }
    }
    Filter(data, p)
  }

  /** One node after lines 247-252, given the restrictions' positions. */
  function Tagged(node: Record, restrictions: seq<Point>, dist: Distance): Result<Record>
    requires "landuse" in node && HasPosition(node)
  {
    if node["landuse"] in NoBuildableLands then Ok(node["filter_tag" := Int(0)])
    else
      match NearestVerdict(Dists(Position(node), restrictions, dist))
      case Err(f) => Err(f)
      case Ok((tag, d)) => Ok(node["filter_tag" := Int(tag)]["distance_restriction" := Real(d)])
  }

  /** Lines 235-254 as one value: the nodes after the loop, or the
      exception that ends it. */
  function UsageTags(data: seq<Record>, dist: Distance): Result<seq<Record>>
    requires forall n :: n in data ==> HasPosition(n)
  {
    if exists j :: 0 <= j < |data| && "landuse" !in data[j] then Err(MissingKey("landuse"))
    else
      var ps := PositionsOf(Restrictions(data));
      if ps == [] && |data| > 0 then Err(Unbound("result"))
      else
        assert forall j :: 0 <= j < |data| ==> data[j] in data;
        Ok(seq(|data|, j requires 0 <= j < |data| => Tagged(data[j], ps, dist).value))
  }

  /** A node's tagging fails only when it needs a nearest restriction and
      there is none, and then with the unbound `result`. */
  lemma TaggedFails(node: Record, restrictions: seq<Point>, dist: Distance)
    requires "landuse" in node && HasPosition(node)
    ensures Tagged(node, restrictions, dist).Err? <==> !IsRestricting(node) && restrictions == []
    ensures Tagged(node, restrictions, dist).Err? ==> Tagged(node, restrictions, dist).failure == Unbound("result")
  {
  }

  /** The value add_usage_tag ends with when no node lacks `landuse` and
      some restriction exists or there is no node. */
  lemma UsageTagsOk(data: seq<Record>, dist: Distance, ps: seq<Point>)
    requires forall n :: n in data ==> HasPosition(n)
    requires forall j :: 0 <= j < |data| ==> "landuse" in data[j]
    requires ps == PositionsOf(Restrictions(data)) && (ps != [] || |data| == 0)
    ensures UsageTags(data, dist).Ok?
    ensures |UsageTags(data, dist).value| == |data|
    ensures forall j :: 0 <= j < |data| ==> UsageTags(data, dist).value[j] == Tagged(data[j], ps, dist).value
  {
  }

  /** Lines 247-252 for one node. */
  method TagNode(node: Record, restrictions: seq<Point>, dist: Distance) returns (r: Result<Record>)
    requires "landuse" in node && HasPosition(node)
    ensures r == Tagged(node, restrictions, dist)
  {
    if node["landuse"] in NoBuildableLands {
      r := Ok(node["filter_tag" := Int(0)]);
    } else {
      var verdict := LookForNearestNode(Position(node), restrictions, dist);
      match verdict
      case Err(f) =>
        r := Err(f);
      case Ok((tag, d)) =>
        r := Ok(node["filter_tag" := Int(tag)]["distance_restriction" := Real(d)]);
    }
  }

  /** One node of the loop of lines 246-252: a node that cannot be tagged
      ends the whole call with the unbound `result`, and one that can shows
      that some restriction exists. */
  lemma TagStep(data: seq<Record>, ps: seq<Point>, dist: Distance, i: nat)
    requires forall n :: n in data ==> HasPosition(n)
    requires forall j :: 0 <= j < |data| ==> "landuse" in data[j]
    requires ps == PositionsOf(Restrictions(data)) && i < |data|
    ensures Tagged(data[i], ps, dist).Err? ==> UsageTags(data, dist) == Err(Unbound("result"))
    ensures Tagged(data[i], ps, dist).Ok? ==> ps != []
  {
    assert data[i] in data;
    TaggedFails(data[i], ps, dist);
    if IsRestricting(data[i]) {
      assert data[i] in Restrictions(data);
    }
  }

  /** Lines 235-254. `nodes` holds the node dicts; the restrictions are
      read through a copy, as only their positions are used and no
      position changes. */
  method AddUsageTag(nodes: array<Record>, dist: Distance) returns (r: Result<seq<Record>>)
    requires forall j :: 0 <= j < nodes.Length ==> HasPosition(nodes[j])
    modifies nodes
    ensures r == UsageTags(old(nodes[..]), dist)
    ensures nodes[..] == if r.Ok? then r.value else old(nodes[..])
  {
    if exists j :: 0 <= j < nodes.Length && "landuse" !in nodes[j] {
      return Err(MissingKey("landuse"));
    }
    var restrictions := GetFilteredNodes(nodes[..], NoBuildableLands, "landuse");
    assert restrictions == Restrictions(nodes[..]);
    assert forall n :: n in restrictions ==> HasPosition(n);
    var failure := TagNodes(nodes, PositionsOf(restrictions), dist);
    if failure.Some? {
      return Err(failure.value);
    }
    r := Ok(nodes[..]);
  }

  /** Lines 246-252: the loop over the nodes, against the positions of the
      restrictions found on line 244. */
  method TagNodes(nodes: array<Record>, ps: seq<Point>, dist: Distance) returns (failure: Option<Failure>)
    requires forall j :: 0 <= j < nodes.Length ==> HasPosition(nodes[j]) && "landuse" in nodes[j]
    requires ps == PositionsOf(Restrictions(nodes[..]))
    modifies nodes
    ensures failure.None? ==> UsageTags(old(nodes[..]), dist) == Ok(nodes[..])
    ensures failure.Some? ==> UsageTags(old(nodes[..]), dist) == Err(failure.value) && nodes[..] == old(nodes[..])
  {
    ghost var s0 := nodes[..];
    assert forall n :: n in s0 ==> HasPosition(n);
    ghost var target := s0;
    if ps != [] {
      UsageTagsOk(s0, dist, ps);
      target := UsageTags(s0, dist).value;
    }
    for i := 0 to nodes.Length
      invariant ps == [] ==> i == 0
      invariant |target| == |s0| == nodes.Length
      invariant forall j :: 0 <= j < i ==> nodes[j] == target[j]
      invariant forall j :: i <= j < nodes.Length ==> nodes[j] == s0[j]
    {
      TagStep(s0, ps, dist, i);
      var tagged := TagNode(nodes[i], ps, dist);
      if tagged.Err? {
        SeqExt(nodes[..], s0);
        return Some(tagged.failure);
      }
      nodes[i] := tagged.value;
    }
    if ps == [] {
      UsageTagsOk(s0, dist, ps);
    }
    SeqExt(nodes[..], UsageTags(s0, dist).value);
    failure := None;
  }

  /** Residential and nature-reserve nodes get tag 0 and no distance; every
      other node gets a tag and the distance of its verdict, tag 0 exactly
      when a restriction lies within 1.56 km. */
  lemma UsageTagGroups(data: seq<Record>, dist: Distance, j: nat)
    requires forall n :: n in data ==> HasPosition(n)
    requires UsageTags(data, dist).Ok? && j < |data|
    ensures var out := UsageTags(data, dist).value;
      var ds := Dists(Position(data[j]), PositionsOf(Restrictions(data)), dist);
      && |out| == |data|
      && (IsRestricting(data[j]) ==> out[j] == data[j]["filter_tag" := Int(0)])
      && (!IsRestricting(data[j]) ==>
            && ds != []
            && out[j] == data[j]["filter_tag" := Int(NearestVerdict(ds).value.0)]["distance_restriction" := Real(NearestVerdict(ds).value.1)]
            && (out[j]["filter_tag"] == Int(0) <==> HasBelow(ds, MinAllowableDistance)))
  {
    assert data[j] in data;
    var ds := Dists(Position(data[j]), PositionsOf(Restrictions(data)), dist);
    NearestVerdictTag(ds);
  }

  /** add_usage_tag fails, before changing any node, exactly when some node
      has no `landuse`, or when there are nodes and none of them is
      residential or a nature reserve. */
  lemma UsageTagFails(data: seq<Record>, dist: Distance)
    requires forall n :: n in data ==> HasPosition(n)
    ensures UsageTags(data, dist).Err? <==>
      (exists j :: 0 <= j < |data| && "landuse" !in data[j]) ||
      (|data| > 0 && forall j :: 0 <= j < |data| ==> !IsRestricting(data[j]))
  {
    var p := (n: Record) => "landuse" in n && n["landuse"] in NoBuildableLands;
    if |data| > 0 && (forall j :: 0 <= j < |data| ==> !IsRestricting(data[j])) {
      FilterNone(data, p);
    }
    if (forall j :: 0 <= j < |data| ==> "landuse" in data[j]) && exists j :: 0 <= j < |data| && IsRestricting(data[j]) {
      var j :| 0 <= j < |data| && IsRestricting(data[j]);
      FilterMultiplicity(data, p, data[j]);
      assert Restrictions(data) != [];
    }
  }
}
