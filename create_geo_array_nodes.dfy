/** create_geo_array_nodes.py: the node documents of each region with
    `lon` and `lat` moved into a GeoJSON-style `coordinates` pair, copied
    region by region into `testing_col`. */
module CreateGeoArrayNodes {
  import opened Values
  import opened Store
  import opened Sequences

  /** `range(6, 381)`. */
  const FirstRegion: int := 6
  const EndRegion: int := 381

  /** What iterate_over_region returns: the sentinel `0` or a list. */
  datatype RegionNodes = NoNodes | Nodes(nodes: seq<Record>)

  /** Lines 39-41 for one element. */
  function Reshape(e: Record): (r: Record)
    requires HasPosition(e)
    ensures "coordinates" in r && r["coordinates"] == List([e["lon"], e["lat"]])
    ensures "lon" !in r && "lat" !in r
    ensures r.Keys == e.Keys - {"lon", "lat"} + {"coordinates"}
    ensures forall k :: k in e && k != "lon" && k != "lat" && k != "coordinates" ==> r[k] == e[k]
  {
    e["coordinates" := List([e["lon"], e["lat"]])] - {"lon", "lat"}
  }

  /** Moving the pair back out of `coordinates`. */
  function Restore(r: Record): Record
    requires "coordinates" in r && r["coordinates"].List? && |r["coordinates"].items| == 2
  {
    (r - {"coordinates"})["lon" := r["coordinates"].items[0]]["lat" := r["coordinates"].items[1]]
  }

  /** Nothing is lost by the reshaping of a record that had no
      `coordinates` of its own. */
  lemma RestoreReshape(e: Record)
    requires HasPosition(e) && "coordinates" !in e
    ensures Restore(Reshape(e)) == e
  {
    var r := Reshape(e);
    assert Restore(r).Keys == e.Keys;
  }

  /** The KeyError line 39 raises on an element without a position:
      `lon` is read first. */
  function PositionFailure(e: Record): Failure
    requires !HasPosition(e)
  {
    if "lon" !in e then MissingKey("lon") else MissingKey("lat")
  }

  /** Lines 38-42: every element reshaped, in order, or the KeyError of
      the first element without a position. */
  function ReshapeAll(data: seq<Record>): (r: Result<seq<Record>>)
    ensures r.Err? <==> exists k :: 0 <= k < |data| && !HasPosition(data[k])
    ensures r.Ok? ==> |r.value| == |data|
  {
    if data == [] then Ok([])
    else
      var prev := ReshapeAll(data[..|data| - 1]);
      var e := data[|data| - 1];
      if prev.Err? then prev
      else if !HasPosition(e) then Err(PositionFailure(e))
      else Ok(prev.value + [Reshape(e)])
  }

  /** Same length and order: the k-th output is the k-th element reshaped. */
  lemma {:induction false} ReshapeAllPointwise(data: seq<Record>)
    requires ReshapeAll(data).Ok?
    ensures forall k :: 0 <= k < |data| ==> HasPosition(data[k]) && ReshapeAll(data).value[k] == Reshape(data[k])
  {
    if data != [] {
      var front := data[..|data| - 1];
      ReshapeAllPointwise(front);
      assert forall k :: 0 <= k < |front| ==> front[k] == data[k];
    }
  }

  /** The failure names the missing key of the first element without a
      position. */
  lemma {:induction false} ReshapeAllFailure(data: seq<Record>)
    requires ReshapeAll(data).Err?
    ensures exists k :: (0 <= k < |data| && !HasPosition(data[k]) && (forall j :: 0 <= j < k ==> HasPosition(data[j]))
      && ReshapeAll(data).failure == PositionFailure(data[k]))
  {
    var front := data[..|data| - 1];
    assert forall k :: 0 <= k < |front| ==> front[k] == data[k];
    if ReshapeAll(front).Err? {
      ReshapeAllFailure(front);
    }
  }

  /** Lines 33-46 for the documents of the region. */
  function RegionOf(data: seq<Record>): (r: Result<RegionNodes>)
    ensures r == Ok(NoNodes) <==> data == []
    ensures r.Ok? && r.value.Nodes? ==> |r.value.nodes| == |data| && r.value.nodes != []
  {
    if data == [] then Ok(NoNodes)
    else
      match ReshapeAll(data)
      case Err(f) => Err(f)
      case Ok(nodes) => Ok(Nodes(nodes))
  }

  /** Lines 33-46. */
  method IterateOverRegion(regionId: int, collection: seq<Record>) returns (r: Result<RegionNodes>)
    ensures r == RegionOf(FindAll(collection, "region_id", Int(regionId)))
  {
    var dataNodes := FindAll(collection, "region_id", Int(regionId));
    if |dataNodes| == 0 {
      return Ok(NoNodes);
    }
    var finalNodesList: seq<Record> := [];
    for i := 0 to |dataNodes|
      invariant ReshapeAll(dataNodes[..i]) == Ok(finalNodesList)
    {
      var element := dataNodes[i];
      ReshapeAllStep(dataNodes, i, finalNodesList);
      if "lon" !in element || "lat" !in element {
        r := Err(PositionFailure(element));
        ReshapeAllStops(dataNodes, i + 1);
        return;
      }
      var coordinates := List([element["lon"], element["lat"]]);
      element := element["coordinates" := coordinates];
      element := element - {"lon"};
      element := element - {"lat"};
      assert element == Reshape(dataNodes[i]);
      finalNodesList := finalNodesList + [element];
    }
    assert dataNodes[..|dataNodes|] == dataNodes;
    r := Ok(Nodes(finalNodesList));
  }

  /** One more element of the loop of lines 38-42. */
  lemma ReshapeAllStep(data: seq<Record>, i: nat, acc: seq<Record>)
    requires i < |data| && ReshapeAll(data[..i]) == Ok(acc)
    ensures HasPosition(data[i]) ==> ReshapeAll(data[..i + 1]) == Ok(acc + [Reshape(data[i])])
    ensures !HasPosition(data[i]) ==> ReshapeAll(data[..i + 1]) == Err(PositionFailure(data[i]))
  {
    assert data[..i + 1][..i] == data[..i];
    assert data[..i + 1][i] == data[i];
  }

  lemma {:induction false} ReshapeAllStops(data: seq<Record>, i: nat)
    requires i <= |data| && ReshapeAll(data[..i]).Err?
    ensures ReshapeAll(data) == ReshapeAll(data[..i])
    decreases |data| - i
  {
    if i < |data| {
      assert data[..i + 1][..i] == data[..i];
      ReshapeAllStops(data, i + 1);
    } else {
      assert data[..i] == data;
    }
  }

  /** What `connect` has sent to `testing_col` after the regions from
      `FirstRegion` up to `last`, and the exception that stopped it. */
  datatype Shipment = Shipment(documents: seq<Record>, failure: Option<Failure>)

  /** Lines 26-28 for one region, after the earlier regions were sent. */
  function Ship(prev: Shipment, out: Result<RegionNodes>): Shipment {
    if prev.failure.Some? then prev
    else match out
      case Err(f) => Shipment(prev.documents, Some(f))
      case Ok(NoNodes) => prev
      case Ok(Nodes(ns)) => Shipment(prev.documents + ns, None)
  }

  /** What the regions' outcomes send, one region after the other. */
  function Shipped(outs: seq<Result<RegionNodes>>): Shipment {
    if outs == [] then Shipment([], None)
    else Ship(Shipped(outs[..|outs| - 1]), outs[|outs| - 1])
  }

  /** What iterate_over_region gives for each region of the loop. */
  function Outcomes(nodes: seq<Record>): (outs: seq<Result<RegionNodes>>)
    ensures |outs| == EndRegion - FirstRegion
    ensures forall k :: 0 <= k < |outs| ==> outs[k] == RegionOf(FindAll(nodes, "region_id", Int(FirstRegion + k)))
  {
    seq(EndRegion - FirstRegion, k requires 0 <= k < EndRegion - FirstRegion =>
      RegionOf(FindAll(nodes, "region_id", Int(FirstRegion + k))))
  }

  /** What the loop has sent after the regions before `last`. */
  function Sent(nodes: seq<Record>, last: int): Shipment
    requires FirstRegion <= last <= EndRegion
  {
    Shipped(Outcomes(nodes)[..last - FirstRegion])
  }

  /** One more region of the loop. */
  lemma ShippedStep(outs: seq<Result<RegionNodes>>, j: nat)
    requires j < |outs|
    ensures Shipped(outs[..j + 1]) == Ship(Shipped(outs[..j]), outs[j])
  {
    assert outs[..j + 1][..j] == outs[..j];
  }

  /** Once a region fails, nothing more is sent. */
  lemma {:induction false} ShippedStops(outs: seq<Result<RegionNodes>>, j: nat)
    requires j <= |outs| && Shipped(outs[..j]).failure.Some?
    ensures Shipped(outs) == Shipped(outs[..j])
    decreases |outs| - j
  {
    if j < |outs| {
      ShippedStep(outs, j);
      ShippedStops(outs, j + 1);
    } else {
      assert outs[..j] == outs;
    }
  }

  /** The documents a region's outcome sends. */
  function Sends(out: Result<RegionNodes>): seq<Record> {
    if out.Ok? && out.value.Nodes? then out.value.nodes else []
  }

  /** Lines 24-28 for the region `i`: its nodes are sent unless there
      are none. */
  method SendRegion(i: int, nodes: seq<Record>, testingCol: Collection) returns (out: Result<RegionNodes>)
    modifies testingCol
    ensures out == RegionOf(FindAll(nodes, "region_id", Int(i)))
    ensures testingCol.documents == old(testingCol.documents) + Sends(out)
  {
    out := IterateOverRegion(i, nodes);
    if out.Ok? && out.value != NoNodes {
      testingCol.InsertMany(out.value.nodes);
    }
  }

  /** The loop of lines 23-31 after region `FirstRegion + j` was sent. */
  lemma ConnectStep(outs: seq<Result<RegionNodes>>, j: nat, out: Result<RegionNodes>)
    requires j < |outs| && out == outs[j] && Shipped(outs[..j]).failure.None?
    ensures out.Err? ==> Shipped(outs) == Shipment(Shipped(outs[..j]).documents, Some(out.failure))
    ensures out.Ok? ==> Shipped(outs[..j + 1]) == Shipment(Shipped(outs[..j]).documents + Sends(out), None)
  {
    ShippedStep(outs, j);
    if out.Err? {
      ShippedStops(outs, j + 1);
    }
  }

  /** Lines 11-31 past the connection: each region's reshaped nodes are
      sent when there are any, and a region without nodes sends nothing. */
  method Connect(nodes: seq<Record>, testingCol: Collection) returns (failure: Option<Failure>)
    modifies testingCol
    ensures testingCol.documents == old(testingCol.documents) + Sent(nodes, EndRegion).documents
    ensures failure == Sent(nodes, EndRegion).failure
  {
    ghost var docs0 := testingCol.documents;
    ghost var outs := Outcomes(nodes);
    assert outs[..EndRegion - FirstRegion] == outs;
    for i := FirstRegion to EndRegion
      invariant Shipped(outs[..i - FirstRegion]).failure.None?
      invariant testingCol.documents == docs0 + Shipped(outs[..i - FirstRegion]).documents
    {
      var out := SendRegion(i, nodes, testingCol);
      ghost var prev := Shipped(outs[..i - FirstRegion]).documents;
      ConnectStep(outs, i - FirstRegion, out);
      if out.Err? {
        failure := Some(out.failure);
        return;
      }
      AppendAssoc(docs0, prev, Sends(out));
    }
    failure := None;
  }

  /** The node's region is one the loop visits before `last`. */
  predicate InRegions(n: Record, last: int) {
    "region_id" in n && n["region_id"].Int? && FirstRegion <= n["region_id"].i < last
  }

  /** The documents one region sends are its nodes reshaped. */
  lemma RegionMember(nodes: seq<Record>, region: int, d: Record)
    requires RegionOf(FindAll(nodes, "region_id", Int(region))).Ok?
    ensures var out := RegionOf(FindAll(nodes, "region_id", Int(region))).value;
      (out.Nodes? && d in out.nodes) <==>
      exists n :: n in nodes && Matches(n, "region_id", Int(region)) && HasPosition(n) && d == Reshape(n)
  {
    var data := FindAll(nodes, "region_id", Int(region));
    if data != [] {
      ReshapedMember(data, d);
    }
  }

  /** The reshaped list holds exactly the reshaped elements. */
  lemma ReshapedMember(data: seq<Record>, d: Record)
    requires ReshapeAll(data).Ok?
    ensures forall n :: n in data ==> HasPosition(n)
    ensures d in ReshapeAll(data).value <==> exists n :: n in data && HasPosition(n) && d == Reshape(n)
  {
    ReshapeAllPointwise(data);
    var ns := ReshapeAll(data).value;
    if d in ns {
      var k :| 0 <= k < |ns| && ns[k] == d;
      assert data[k] in data;
    }
    forall n | n in data && HasPosition(n) && d == Reshape(n) ensures d in ns {
      var k :| 0 <= k < |data| && data[k] == n;
      assert ns[k] == d;
    }
  }

  /** When no region fails, `testing_col` receives exactly the reshaped
      nodes of regions 6 to 380. */
  lemma {:induction false} SentMember(nodes: seq<Record>, last: int, d: Record)
    requires FirstRegion <= last <= EndRegion && Sent(nodes, last).failure.None?
    ensures d in Sent(nodes, last).documents <==>
      exists n :: n in nodes && InRegions(n, last) && HasPosition(n) && d == Reshape(n)
    decreases last - FirstRegion
  {
    if last > FirstRegion {
      var region := last - 1;
      ShippedStep(Outcomes(nodes), region - FirstRegion);
      assert Sent(nodes, region).failure.None?;
      SentMember(nodes, region, d);
      RegionMember(nodes, region, d);
      assert forall n :: InRegions(n, last) <==> InRegions(n, region) || Matches(n, "region_id", Int(region));
    }
  }
}
