/** Facts about OSM ways shared by the node/way joins of the generators. */
module Osm {
  import opened Values

  /** The land uses that make a node restricting. */
  const NoBuildableLands: seq<Value> := [Str("residential"), Str("nature_reserve")]

  predicate HasNodeList(w: Record) {
    "nodes" in w && w["nodes"].List?
  }

  /** `node_id in way["nodes"]` on a way whose `nodes` is a list. */
  predicate InWay(w: Record, id: Value) {
    HasNodeList(w) && id in w["nodes"].items
  }

  /** The last way of `ways` whose node list holds `id`, if any: the way
      whose data a node ends up with when every containing way overwrites
      the previous one. */
  function LastWayContaining(ways: seq<Record>, id: Value): (r: Option<nat>)
    ensures r.None? <==> forall k :: 0 <= k < |ways| ==> !InWay(ways[k], id)
    ensures r.Some? ==> r.value < |ways| && InWay(ways[r.value], id)
    ensures r.Some? ==> forall k :: r.value < k < |ways| ==> !InWay(ways[k], id)
  {
    if ways == [] then None
    else if InWay(ways[|ways| - 1], id) then Some(|ways| - 1)
    else LastWayContaining(ways[..|ways| - 1], id)
  }

  /** Adding one more way to the scan of `LastWayContaining`. */
  lemma LastWayContainingStep(ways: seq<Record>, j: nat, id: Value)
    requires j < |ways|
    ensures LastWayContaining(ways[..j + 1], id)
         == if InWay(ways[j], id) then Some(j) else LastWayContaining(ways[..j], id)
  {
    assert ways[..j + 1][..j] == ways[..j];
  }
}
