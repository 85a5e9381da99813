/** get_power_areas.py: the buildable area and the installable power of
    each land-use way, and their totals for a region. The geodesic polygon
    area and the convex-hull routine are foreign calls and stay parameters:
    `polygonArea` is the signed area in square metres of the polygon with
    the given longitudes and latitudes, `hullAccepts` says whether
    `ConvexHull` accepts the points instead of raising. */
module GetPowerAreas {
  import opened Values
  import opened Store

  /** `1e-06`: square metres to square kilometres. */
  const SquareMetresToKm2: real := 0.000001
  /** MW per km². */
  const AvgPowerCoefficient: real := 19.8
  const ResultsField: string := "results_500m"

  datatype Geometry = Geometry(
    polygonArea: (seq<Value>, seq<Value>) -> real,
    hullAccepts: seq<Value> -> bool)

  function Abs(x: real): (r: real)
    ensures r >= 0.0 && (r == x || r == -x)
  {
    if x < 0.0 then -x else x
  }

  /** `[lon, lat]` pairs as create_geo_array_nodes writes them. */
  predicate AreCoordinates(points: seq<Value>) {
    forall k :: 0 <= k < |points| ==> points[k].List? && |points[k].items| >= 2
  }

  /** A group of the aggregation: `_id`, `buildable_nodes`, `node_coordinates`. */
  predicate WellFormedGroup(way: Record) {
    && "buildable_nodes" in way && way["buildable_nodes"].List?
    && "node_coordinates" in way && way["node_coordinates"].List?
    && AreCoordinates(way["node_coordinates"].items)
  }

  /** `[x[0] for x in points]` and `[x[1] for x in points]`. */
  function Lons(points: seq<Value>): (r: seq<Value>)
    requires AreCoordinates(points)
    ensures |r| == |points| && forall k :: 0 <= k < |points| ==> r[k] == points[k].items[0]
  {
    seq(|points|, k requires 0 <= k < |points| => points[k].items[0])
  }

  function Lats(points: seq<Value>): (r: seq<Value>)
    requires AreCoordinates(points)
    ensures |r| == |points| && forall k :: 0 <= k < |points| ==> r[k] == points[k].items[1]
  {
    seq(|points|, k requires 0 <= k < |points| => points[k].items[1])
  }

  /** Lines 80-104: (area in km², power in MW) of one way, or the error the
      hull routine raises. */
  function CalculateWayArea(way: Record, geo: Geometry): (r: Result<(real, real)>)
    requires WellFormedGroup(way)
    ensures |way["buildable_nodes"].items| <= 2 ==> r == Ok((0.0, 0.0))
    ensures r.Err? <==> |way["buildable_nodes"].items| > 2 && !geo.hullAccepts(way["node_coordinates"].items)
    ensures r.Err? ==> r.failure == DegenerateHull
    ensures r.Ok? ==> r.value.0 >= 0.0 && r.value.1 == r.value.0 * AvgPowerCoefficient
  {
    if |way["buildable_nodes"].items| > 2 then
      var points := way["node_coordinates"].items;
      if !geo.hullAccepts(points) then Err(DegenerateHull)
      else
        var area := Abs(geo.polygonArea(Lons(points), Lats(points)));
        var buildableArea := area * SquareMetresToKm2;
        Ok((buildableArea, buildableArea * AvgPowerCoefficient))
    else Ok((0.0, 0.0))
  }

  /** A way with more than two buildable nodes gets the absolute polygon
      area over all its points, in their order, in km²: the hull decides
      only whether the call raises. */
  lemma WayAreaOverAllPoints(way: Record, geo: Geometry)
    requires WellFormedGroup(way) && |way["buildable_nodes"].items| > 2
    requires geo.hullAccepts(way["node_coordinates"].items)
    ensures var points := way["node_coordinates"].items;
      var signed := geo.polygonArea(Lons(points), Lats(points));
      CalculateWayArea(way, geo) == Ok((Abs(signed) * SquareMetresToKm2, Abs(signed) * SquareMetresToKm2 * AvgPowerCoefficient))
  {
  }

  /** A way whose buildable nodes are few contributes nothing, however
      many coordinates it has. */
  lemma WayAreaGate(way: Record, geo: Geometry, coordinates: seq<Value>)
    requires WellFormedGroup(way) && |way["buildable_nodes"].items| <= 2
    requires AreCoordinates(coordinates)
    ensures WellFormedGroup(way["node_coordinates" := List(coordinates)])
    ensures CalculateWayArea(way["node_coordinates" := List(coordinates)], geo) == Ok((0.0, 0.0))
  {
  }

  predicate WellFormedGroups(ways: seq<Record>) {
    forall k :: 0 <= k < |ways| ==> WellFormedGroup(ways[k])
  }

  /** Lines 58-63 as one value: the summed areas and powers, or the first
      error. */
  function Totals(ways: seq<Record>, geo: Geometry): (r: Result<(real, real)>)
    requires WellFormedGroups(ways)
  {
    if ways == [] then Ok((0.0, 0.0))
    else
      match Totals(ways[..|ways| - 1], geo)
      case Err(f) => Err(f)
      case Ok((area, power)) =>
        match CalculateWayArea(ways[|ways| - 1], geo)
        case Err(f) => Err(f)
        case Ok((a, p)) => Ok((area + a, power + p))
  }

  /** The totals are non-negative and the power total is the area total
      times the power coefficient. */
  lemma {:induction false} TotalsProportional(ways: seq<Record>, geo: Geometry)
    requires WellFormedGroups(ways) && Totals(ways, geo).Ok?
    ensures Totals(ways, geo).value.0 >= 0.0
    ensures Totals(ways, geo).value.1 == Totals(ways, geo).value.0 * AvgPowerCoefficient
  {
    if ways != [] {
      TotalsProportional(ways[..|ways| - 1], geo);
    }
  }

  /** The totals of two runs of ways add up. */
  lemma {:induction false} TotalsAppend(a: seq<Record>, b: seq<Record>, geo: Geometry)
    requires WellFormedGroups(a) && WellFormedGroups(b)
    ensures WellFormedGroups(a + b)
    ensures Totals(a + b, geo).Ok? <==> Totals(a, geo).Ok? && Totals(b, geo).Ok?
    ensures Totals(a + b, geo).Ok? ==>
      Totals(a + b, geo).value == (Totals(a, geo).value.0 + Totals(b, geo).value.0, Totals(a, geo).value.1 + Totals(b, geo).value.1)
    decreases |b|
  {
    assert forall k :: 0 <= k < |a + b| ==> (a + b)[k] == if k < |a| then a[k] else b[k - |a|];
    if b == [] {
      assert a + b == a;
    } else {
      var b' := b[..|b| - 1];
      assert (a + b)[..|a + b| - 1] == a + b';
      assert (a + b)[|a + b| - 1] == b[|b| - 1];
      TotalsAppend(a, b', geo);
    }
  }

  /** The totals fail exactly when some way with more than two buildable
      nodes has points the hull routine rejects. */
  lemma {:induction false} TotalsFail(ways: seq<Record>, geo: Geometry)
    requires WellFormedGroups(ways)
    ensures Totals(ways, geo).Err? <==> exists k :: 0 <= k < |ways| && CalculateWayArea(ways[k], geo).Err?
  {
    if ways != [] {
      var front := ways[..|ways| - 1];
      TotalsFail(front, geo);
      assert forall k :: 0 <= k < |front| ==> front[k] == ways[k];
    }
  }

  /** Lines 58-63. */
  method SumWays(ways: seq<Record>, geo: Geometry) returns (r: Result<(real, real)>)
    requires WellFormedGroups(ways)
    ensures r == Totals(ways, geo)
  {
    var overallArea, overallPower := 0.0, 0.0;
    for i := 0 to |ways|
      invariant Totals(ways[..i], geo) == Ok((overallArea, overallPower))
    {
      assert ways[..i + 1][..i] == ways[..i];
      var way := CalculateWayArea(ways[i], geo);
      if way.Err? {
        r := Err(way.failure);
        assert Totals(ways[..i + 1], geo).Err?;
        TotalsFail(ways[..i + 1], geo);
        TotalsFail(ways, geo);
        assert ways[..i + 1][i] == ways[i];
        RemainingFail(ways, geo, i + 1);
        return;
      }
      overallArea := overallArea + way.value.0;
      overallPower := overallPower + way.value.1;
    }
    assert ways[..|ways|] == ways;
    r := Ok((overallArea, overallPower));
  }

  /** A failing prefix makes the whole fail with the same error. */
  lemma {:induction false} RemainingFail(ways: seq<Record>, geo: Geometry, i: nat)
    requires WellFormedGroups(ways) && i <= |ways|
    requires WellFormedGroups(ways[..i]) && Totals(ways[..i], geo).Err?
    ensures Totals(ways, geo) == Totals(ways[..i], geo)
    decreases |ways| - i
  {
    if i < |ways| {
      assert ways[..i + 1][..i] == ways[..i];
      RemainingFail(ways, geo, i + 1);
    } else {
      assert ways[..i] == ways;
    }
  }

  /** The summary written under `results_500m`. */
  function Summary(area: real, power: real): Value {
    Dict(map["overall_area" := Real(area), "overall_power" := Real(power)])
  }

  /** Lines 53-70 past the aggregation: `ways` are the groups the pipeline
      yields; the totals go onto the region document with id `regionId`,
      and nothing is written when a hull call raises. */
  method GetBuildableNodes(regionId: Value, ways: seq<Record>, regions: Collection, geo: Geometry)
    returns (failure: Option<Failure>)
    requires WellFormedGroups(ways)
    modifies regions
    ensures Totals(ways, geo).Err? ==> failure == Some(Totals(ways, geo).failure) && regions.documents == old(regions.documents)
    ensures Totals(ways, geo).Ok? ==> failure.None?
    ensures Totals(ways, geo).Ok? ==>
      regions.documents == UpdateFirst(old(regions.documents), "id", regionId, ResultsField,
                                       Summary(Totals(ways, geo).value.0, Totals(ways, geo).value.1))
  {
    var totals := SumWays(ways, geo);
    if totals.Err? {
      return Some(totals.failure);
    }
    regions.UpdateOne("id", regionId, ResultsField, Summary(totals.value.0, totals.value.1));
    failure := None;
  }
}
