/** Dynamic values shared by every module: the JSON-like contents of OSM
    elements, Python dicts and MongoDB documents, and the error outcomes
    of the scripts. */
module Values {

  /** One value held under a key of a dict or document. */
  datatype Value =
    | Null
    | Bool(b: bool)
    | Int(i: int)
    | Real(r: real)
    | Str(s: string)
    | List(items: seq<Value>)
    | Dict(entries: map<string, Value>)

  /** A Python dict or a MongoDB document with string keys. */
  type Record = map<string, Value>

  datatype Option<+T> = None | Some(value: T)

  /** The exceptions the modelled code can end in. */
  datatype Failure =
    | MissingKey(key: string)   // KeyError
    | IndexOutOfRange           // IndexError
    | Unbound(name: string)     // UnboundLocalError: a local read before any assignment
    | NotFound(id: Value)       // a lookup gave None, which was then indexed
    | DegenerateHull            // the convex hull routine rejected the points
    | NotANumber(text: string)  // ValueError: float() refused the text

  datatype Result<+T> = Ok(value: T) | Err(failure: Failure)

  type NonNegReal = r: real | r >= 0.0

  /** The latitude and longitude a distance is computed from. */
  datatype Point = Point(lat: Value, lon: Value)

  /** Haversine distance in kilometres; left uninterpreted apart from
      being non-negative. */
  type Distance = (Point, Point) -> NonNegReal

  predicate HasPosition(r: Record) {
    "lat" in r && "lon" in r
  }

  function Position(r: Record): Point
    requires HasPosition(r)
  {
    Point(r["lat"], r["lon"])
  }

  /** `{k: v for k, v in r.items() if k in keys}` */
  function Project(r: Record, keys: seq<string>): Record {
    map k | k in r && k in keys :: r[k]
  }
}
