/** MongoDB and ArangoDB collections as the scripts use them: a sequence
    of documents in natural order that `find` filters and the insert
    calls append to. */
module Store {
  import opened Values
  import opened Sequences

  /** `{key: v}` as a query filter. */
  predicate Matches(doc: Record, key: string, v: Value) {
    key in doc && doc[key] == v
  }

  /** The documents a `find({key: v})` cursor yields, in natural order. */
  function FindAll(docs: seq<Record>, key: string, v: Value): (r: seq<Record>)
    ensures forall d :: d in r <==> d in docs && Matches(d, key, v)
    ensures |r| == 0 <==> forall k :: 0 <= k < |docs| ==> !Matches(docs[k], key, v)
  {
    var p := (d: Record) => Matches(d, key, v);
    assert forall k :: 0 <= k < |docs| ==> docs[k] in docs;
    assert forall d :: d in Filter(docs, p) <==> d in docs && Matches(d, key, v) by {
      forall d ensures d in Filter(docs, p) <==> d in docs && Matches(d, key, v) {
        FilterMultiplicity(docs, p, d);
      }
    }
    assert Filter(docs, p) != [] ==> Filter(docs, p)[0] in Filter(docs, p);
    Filter(docs, p)
  }

  /** The index of the first document matching `{key: v}`: the one
      `find_one`, `next(find(...))` and `update_one` act on. */
  function FirstMatch(docs: seq<Record>, key: string, v: Value): (r: Option<nat>)
    ensures r.None? <==> forall k :: 0 <= k < |docs| ==> !Matches(docs[k], key, v)
    ensures r.Some? ==> r.value < |docs| && Matches(docs[r.value], key, v)
    ensures r.Some? ==> forall k :: 0 <= k < r.value ==> !Matches(docs[k], key, v)
  {
    if docs == [] then None
    else if Matches(docs[0], key, v) then Some(0)
    else match FirstMatch(docs[1..], key, v)
      case None => None
      case Some(k) => Some(k + 1)
  }

  /** `update_one({key: v}, {"$set": {field: value}}, upsert=False)`:
      the first matching document gets the field, nothing else changes,
      and nothing is inserted when no document matches. */
  function UpdateFirst(docs: seq<Record>, key: string, v: Value, field: string, value: Value): (r: seq<Record>)
    ensures |r| == |docs|
    ensures forall k :: 0 <= k < |docs| && Some(k) != FirstMatch(docs, key, v) ==> r[k] == docs[k]
    ensures FirstMatch(docs, key, v).Some? ==>
      r[FirstMatch(docs, key, v).value] == docs[FirstMatch(docs, key, v).value][field := value]
  {
    match FirstMatch(docs, key, v)
    case None => docs
    case Some(k) => docs[k := docs[k][field := value]]
  }

  class Collection {
    var documents: seq<Record>

    constructor (docs: seq<Record>)
      ensures documents == docs
    {
      documents := docs;
    }

    /** `insert_one` / `createDocument(...).save()`. */
    method InsertOne(doc: Record)
      modifies this
      ensures documents == old(documents) + [doc]
    {
      documents := documents + [doc];
    }

    /** `insert_many`, which the driver refuses for an empty list. */
    method InsertMany(docs: seq<Record>)
      requires docs != []
      modifies this
      ensures documents == old(documents) + docs
    {
      documents := documents + docs;
    }

    /** `update_one` with a `$set` of one field and no upsert. */
    method UpdateOne(key: string, v: Value, field: string, value: Value)
      modifies this
      ensures documents == UpdateFirst(old(documents), key, v, field, value)
    {
      var found := FirstMatch(documents, key, v);
      if found.Some? {
        var k := found.value;
        documents := documents[k := documents[k][field := value]];
      }
    }
  }
}
