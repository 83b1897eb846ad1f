/** The parsed configuration values the theme engine receives: a JSON value
    as JavaScript sees it after `JSON.parse`. An object keeps its own keys in
    insertion order, one entry per key. */
module Json {
  import opened Wrappers
  import opened Strings

  datatype Json =
    | JNull
    | JBool(b: bool)
    | JNum(n: int)
    | JStr(s: string)
    | JArr(items: seq<Json>)
    | JObj(fields: seq<(string, Json)>)

  /** Property access `object[key]`: the value stored under `key`, or
      None for `undefined`. */
  function Get(fields: seq<(string, Json)>, key: string): (r: Option<Json>)
    ensures r.None? <==> forall i :: 0 <= i < |fields| ==> fields[i].0 != key
    ensures r.Some? ==> exists i :: 0 <= i < |fields| && fields[i] == (key, r.value)
  {
    if fields == [] then None
    else if fields[0].0 == key then Some(fields[0].1)
    else
      var r := Get(fields[1..], key);
      assert forall i :: 1 <= i < |fields| ==> fields[i] == fields[1..][i - 1];
      r
  }

  /** JavaScript truthiness of a (possibly undefined) property value. */
  predicate Truthy(v: Option<Json>) {
    match v
    case None => false
    case Some(j) =>
      match j
      case JNull => false
      case JBool(b) => b
      case JNum(n) => n != 0
      case JStr(s) => s != ""
      case JArr(_) => true
      case JObj(_) => true
  }

  /** `Array.isArray(v)` and every item has `typeof` 'string'. */
  predicate IsStringArray(v: Json) {
    v.JArr? && forall i :: 0 <= i < |v.items| ==> v.items[i].JStr?
  }

  /** The strings of a string array, in order. */
  function StringItems(v: Json): (r: seq<string>)
    requires IsStringArray(v)
    ensures |r| == |v.items|
    ensures forall i :: 0 <= i < |r| ==> v.items[i] == JStr(r[i])
  {
    seq(|v.items|, i requires 0 <= i < |v.items| => v.items[i].s)
  }
}
