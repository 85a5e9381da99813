/** db_connect.py: the event-driven reader of an OSM file that picks out
    restaurant and fast-food nodes and hands each one to a callback, and
    the callback that stores the named ones. The XML parser that produces
    the events is not part of this model: the events are the calls. */
module DbConnect {
  import opened Values

  /** What `self.node` holds: `None`, `False`, or the dict being built. */
  datatype Slot = NoNode | Discarded | Building(fields: Record)

  /** Python truthiness of `self.node`: only a non-empty dict is true. */
  predicate Live(slot: Slot) {
    slot.Building? && slot.fields != map[]
  }

  const RestaurantAmenities: set<string> := {"restaurant", "fast_food"}

  /** Lines 23-46 on the current slot: the slot afterwards and the
      exception raised, if any. `number` stands for `float`: `None` is a
      text it refuses. An exception leaves whatever the lines before it
      assigned. */
  function Started(slot: Slot, tag: string, attrib: map<string, string>, number: string -> Option<real>): (Slot, Option<Failure>) {
    if tag == "node" then
      if "lat" !in attrib then (Building(map[]), Some(MissingKey("lat")))
      else if number(attrib["lat"]).None? then (Building(map[]), Some(NotANumber(attrib["lat"])))
      else
        var withLat := map["lat" := Real(number(attrib["lat"]).value)];
        if "lon" !in attrib then (Building(withLat), Some(MissingKey("lon")))
        else if number(attrib["lon"]).None? then (Building(withLat), Some(NotANumber(attrib["lon"])))
        else (Building(withLat["lon" := Real(number(attrib["lon"]).value)]), None)
    else if tag == "tag" && Live(slot) then
      if "k" !in attrib then (slot, Some(MissingKey("k")))
      else
        var k := attrib["k"];
        if k == "highway" then (NoNode, None)
        else if k !in {"amenity", "name", "cuisine"} then (slot, None)
        else if "v" !in attrib then (slot, Some(MissingKey("v")))
        else if k == "amenity" && attrib["v"] !in RestaurantAmenities then (Discarded, None)
        else (Building(slot.fields[k := Str(attrib["v"])]), None)
    else (slot, None)
  }

  /** Lines 49-52: the slot afterwards and the record passed to the
      callback, if any. */
  function Ended(slot: Slot, tag: string): (Slot, Option<Record>) {
    if tag != "node" then (slot, None)
    else if Live(slot) && "amenity" in slot.fields then (NoNode, Some(slot.fields))
    else (NoNode, None)
  }

  /** A record the reader would hand over: a restaurant or fast-food
      amenity with a latitude. */
  predicate IsRestaurant(fields: Record) {
    "lat" in fields && "amenity" in fields &&
    fields["amenity"] in {Str("restaurant"), Str("fast_food")}
  }

  /** What a record under construction always satisfies: it has a
      latitude once it is non-empty, and its amenity, if it has one, is a
      restaurant's. */
  predicate SlotOk(slot: Slot) {
    slot.Building? ==>
      (slot.fields != map[] ==> "lat" in slot.fields) &&
      ("amenity" in slot.fields ==> slot.fields["amenity"] in {Str("restaurant"), Str("fast_food")})
  }

  /** Lines 11-55. `delivered` is what the callback has received, in
      order. */
  class RestaurantExtractor {
    var node: Slot
    var delivered: seq<Record>

    predicate Valid()
      reads this
    {
      SlotOk(node) && forall k :: 0 <= k < |delivered| ==> IsRestaurant(delivered[k])
    }

    /** Lines 17-19. */
    constructor ()
      ensures node == NoNode && delivered == [] && Valid()
    {
      node := NoNode;
      delivered := [];
    }

    /** Lines 21-46. */
    method Start(tag: string, attrib: map<string, string>, number: string -> Option<real>) returns (failure: Option<Failure>)
      requires Valid()
      modifies this
      ensures (node, failure) == Started(old(node), tag, attrib, number)
      ensures delivered == old(delivered)
      ensures Valid()
    {
      failure := None;
      if tag == "node" {
        node := Building(map[]);
        if "lat" !in attrib {
          return Some(MissingKey("lat"));
        }
        var lat := number(attrib["lat"]);
        if lat.None? {
          return Some(NotANumber(attrib["lat"]));
        }
        node := Building(node.fields["lat" := Real(lat.value)]);
        if "lon" !in attrib {
          return Some(MissingKey("lon"));
        }
        var lon := number(attrib["lon"]);
        if lon.None? {
          return Some(NotANumber(attrib["lon"]));
        }
        node := Building(node.fields["lon" := Real(lon.value)]);
      }
      if tag == "tag" && Live(node) {
        if "k" !in attrib {
          return Some(MissingKey("k"));
        }
        if attrib["k"] == "highway" {
          node := NoNode;
        }
        if attrib["k"] == "amenity" {
          if "v" !in attrib {
            return Some(MissingKey("v"));
          }
          if attrib["v"] == "restaurant" || attrib["v"] == "fast_food" {
            node := Building(node.fields["amenity" := Str(attrib["v"])]);
          } else {
            node := Discarded;
          }
        }
        if attrib["k"] == "name" {
          if "v" !in attrib {
            return Some(MissingKey("v"));
          }
          node := Building(node.fields["name" := Str(attrib["v"])]);
        }
        if attrib["k"] == "cuisine" {
          if "v" !in attrib {
            return Some(MissingKey("v"));
          }
          node := Building(node.fields["cuisine" := Str(attrib["v"])]);
        }
      }
      StartedKeepsSlotOk(old(node), tag, attrib, number);
    }

    /** Lines 48-52. */
    method End(tag: string)
      requires Valid()
      modifies this
      ensures node == Ended(old(node), tag).0
      ensures Ended(old(node), tag).1.Some? ==> delivered == old(delivered) + [Ended(old(node), tag).1.value]
      ensures Ended(old(node), tag).1.None? ==> delivered == old(delivered)
      ensures Valid()
    {
      if tag == "node" {
        if Live(node) && "amenity" in node.fields {
          delivered := delivered + [node.fields];
        }
        node := NoNode;
      }
    }

    /** Lines 54-55: back to the state the constructor makes; the callback
        stays, and so does what it has received. */
    method Close()
      requires Valid()
      modifies this
      ensures node == NoNode && delivered == old(delivered)
      ensures Valid()
    {
      node := NoNode;
    }
  }

  /** Every step keeps a record under construction well formed. */
  lemma StartedKeepsSlotOk(slot: Slot, tag: string, attrib: map<string, string>, number: string -> Option<real>)
    requires SlotOk(slot)
    ensures SlotOk(Started(slot, tag, attrib, number).0)
  {
  }

  /** `start("node")` replaces whatever was there with a fresh record
      holding only the two coordinates. */
  lemma StartNodeFresh(slot: Slot, attrib: map<string, string>, number: string -> Option<real>)
    requires "lat" in attrib && "lon" in attrib
    requires number(attrib["lat"]).Some? && number(attrib["lon"]).Some?
    ensures Started(slot, "node", attrib, number).1.None?
    ensures Started(slot, "node", attrib, number).0.Building?
    ensures var fields := Started(slot, "node", attrib, number).0.fields;
      fields.Keys == {"lat", "lon"} &&
      fields["lat"] == Real(number(attrib["lat"]).value) && fields["lon"] == Real(number(attrib["lon"]).value)
  {
  }

  /** A `tag` event with no live record, after `None` or `False` or an
      empty dict, changes nothing and raises nothing. */
  lemma TagIgnoredWhenNotLive(slot: Slot, attrib: map<string, string>, number: string -> Option<real>)
    requires !Live(slot)
    ensures Started(slot, "tag", attrib, number) == (slot, None)
  {
  }

  /** A `highway` tag discards the record. */
  lemma HighwayDiscards(slot: Slot, attrib: map<string, string>, number: string -> Option<real>)
    requires Live(slot) && "k" in attrib && attrib["k"] == "highway"
    ensures Started(slot, "tag", attrib, number) == (NoNode, None)
  {
  }

  /** An `amenity` of restaurant or fast_food is recorded; any other
      amenity marks the record `False`. */
  lemma AmenityFilter(slot: Slot, attrib: map<string, string>, number: string -> Option<real>)
    requires Live(slot) && "k" in attrib && attrib["k"] == "amenity" && "v" in attrib
    ensures Started(slot, "tag", attrib, number).1.None?
    ensures attrib["v"] in RestaurantAmenities ==>
      Started(slot, "tag", attrib, number).0 == Building(slot.fields["amenity" := Str(attrib["v"])])
    ensures attrib["v"] !in RestaurantAmenities ==> Started(slot, "tag", attrib, number).0 == Discarded
  {
  }

  /** `name` and `cuisine` are copied onto a live record, and nothing else
      about it changes. */
  lemma NameCuisineCopied(slot: Slot, attrib: map<string, string>, number: string -> Option<real>)
    requires Live(slot) && "k" in attrib && attrib["k"] in {"name", "cuisine"} && "v" in attrib
    ensures Started(slot, "tag", attrib, number) == (Building(slot.fields[attrib["k"] := Str(attrib["v"])]), None)
  {
  }

  /** Any other key leaves the record alone; a tag without `k`, or a
      relevant one without `v`, raises and leaves it alone too. */
  lemma OtherTagsIgnored(slot: Slot, attrib: map<string, string>, number: string -> Option<real>)
    requires Live(slot)
    ensures "k" !in attrib ==> Started(slot, "tag", attrib, number) == (slot, Some(MissingKey("k")))
    ensures "k" in attrib && attrib["k"] !in {"highway", "amenity", "name", "cuisine"} ==>
      Started(slot, "tag", attrib, number) == (slot, None)
    ensures "k" in attrib && attrib["k"] in {"amenity", "name", "cuisine"} && "v" !in attrib ==>
      Started(slot, "tag", attrib, number) == (slot, Some(MissingKey("v")))
  {
  }

  /** Other start tags change nothing. */
  lemma OtherStartsIgnored(slot: Slot, tag: string, attrib: map<string, string>, number: string -> Option<real>)
    requires tag != "node" && tag != "tag"
    ensures Started(slot, tag, attrib, number) == (slot, None)
  {
  }

  /** `end("node")` hands the record over exactly when it is live and has
      an amenity, and always clears the slot; other end tags change
      nothing. */
  lemma EndDelivers(slot: Slot, tag: string)
    ensures tag == "node" ==> Ended(slot, tag).0 == NoNode
    ensures tag == "node" ==> (Ended(slot, tag).1.Some? <==> Live(slot) && "amenity" in slot.fields)
    ensures Ended(slot, tag).1.Some? ==> Ended(slot, tag).1.value == slot.fields
    ensures tag != "node" ==> Ended(slot, tag) == (slot, None)
  {
  }

  /** Whatever a well-formed record hands over is a restaurant. */
  lemma EndedIsRestaurant(slot: Slot, tag: string)
    requires SlotOk(slot)
    ensures Ended(slot, tag).1.Some? ==> IsRestaurant(Ended(slot, tag).1.value)
  {
  }

  /** The store of lines 74-87: `createDocument(node).save()` appends to
      the collection, and `count` numbers the saved records. */
  class Places {
    var documents: seq<Record>
    var count: int

    /** Line 73. */
    constructor (docs: seq<Record>)
      ensures documents == docs && count == 0
    {
      documents := docs;
      count := 0;
    }

    /** Lines 74-87: a record without a name is skipped; any other is
        stored and counted. */
    method SaveToDb(node: Record)
      modifies this
      ensures "name" in node ==> documents == old(documents) + [node] && count == old(count) + 1
      ensures "name" !in node ==> documents == old(documents) && count == old(count)
    {
      if "name" !in node {
        return;
      }
      documents := documents + [node];
      count := count + 1;
    }
  }
}
