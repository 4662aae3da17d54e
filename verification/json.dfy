/** Values produced by Python's json.loads, as the tag pipeline sees them,
    and the one exception of the pipeline that escapes to the caller. */
module JsonValue {

  datatype Option<T> = None | Some(value: T) {
    /** dict.get(key, default) */
    function GetOr(default: T): T {
      match this
      case Some(v) => v
      case None => default
    }
  }

  /** A decoded JSON value. An object keeps its members in insertion order,
      as a Python dict does; json.loads gives each key once. */
  datatype Json =
    | JNull
    | JBool(b: bool)
    | JInt(i: int)
    | JFloat(x: real)
    | JStr(s: string)
    | JList(items: seq<Json>)
    | JObj(members: seq<(string, Json)>)

  /** The outcome of json.loads on one metadata string: a JSONDecodeError or a value. */
  datatype Decoded = Undecodable | Value(json: Json)

  /** A result, or the TypeError that Python raises and nothing catches. */
  datatype Result<T> = Ok(value: T) | TypeError

  /** `key in d` and `d[key]` on a decoded object. */
  function Lookup(members: seq<(string, Json)>, key: string): (r: Option<Json>)
    ensures r.None? <==> forall i :: 0 <= i < |members| ==> members[i].0 != key
    ensures r.Some? ==> exists i :: 0 <= i < |members| && members[i] == (key, r.value)
  {
    if |members| == 0 then None
    else if members[0].0 == key then Some(members[0].1)
    else Lookup(members[1..], key)
  }

  /** The number Python compares and multiplies when a frequency is used:
      int, float and bool (True is 1, False is 0); any other value makes the
      comparison or the product raise TypeError. */
  function Number(j: Json): (r: Option<real>)
    ensures r.Some? <==> (j.JInt? || j.JFloat? || j.JBool?)
  {
    match j
    case JInt(i) => Some(i as real)
    case JFloat(x) => Some(x)
    case JBool(b) => Some(if b then 1.0 else 0.0)
    case _ => None
  }
}
