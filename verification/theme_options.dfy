/** Payload validation of the theme operations (`_check`, `isValid`) and
    the decoding of a valid payload into the options the runner uses. */
module ThemeOptions {
  import opened Wrappers
  import opened Strings
  import opened Json

  /** `match`: the granularity at which presence is tested and writes land. */
  datatype Match = ByComponent | ByMode

  /** `type`: which locations of the tail themes take part. */
  datatype SetOp = All | Difference | Intersect

  /** The two operations whose payload goes through `_check`. */
  datatype Kind = OverrideKind | ExtendKind

  /** A decoded payload; `matchBy` is None only for an extend of type 'all'
      that omits it, `components` is None when the key is falsy. */
  datatype Options = Options(matchBy: Option<Match>, setOp: SetOp, components: Option<seq<string>>)

  /** The lower-cased keys of OPTIONS, in declaration order. */
  const OptionKeys: seq<string> := ["match", "type"]

  function MatchOf(v: Json): (r: Option<Match>)
    ensures r == Some(ByComponent) <==> v == JStr("component")
    ensures r == Some(ByMode) <==> v == JStr("mode")
  {
    if v == JStr("component") then Some(ByComponent)
    else if v == JStr("mode") then Some(ByMode)
    else None
  }

  function SetOpOf(v: Json): (r: Option<SetOp>)
    ensures r == Some(All) <==> v == JStr("all")
    ensures r == Some(Difference) <==> v == JStr("difference")
    ensures r == Some(Intersect) <==> v == JStr("intersect")
  {
    if v == JStr("all") then Some(All)
    else if v == JStr("difference") then Some(Difference)
    else if v == JStr("intersect") then Some(Intersect)
    else None
  }

  /** `Object.values(OPTIONS[KEY]).includes(value)`. */
  predicate Allowed(key: string, v: Json) {
    if key == "match" then MatchOf(v).Some? else SetOpOf(v).Some?
  }

  /** The loop of `_check` over the option keys. */
  function CheckKeys(kind: Kind, fields: seq<(string, Json)>, keys: seq<string>): bool {
    if keys == [] then true
    else
      var v := Get(fields, keys[0]);
      if v.None? then
        if kind == ExtendKind && Get(fields, "type") == Some(JStr("all")) then CheckKeys(kind, fields, keys[1..])
        else false
      else if !Allowed(keys[0], v.value) then false
      else CheckKeys(kind, fields, keys[1..])
  }

  /** Declarative reading of a valid override/extend payload: an object
      whose `type` is one of the three set operations and whose `match` is
      one of the two granularities, except that an extend of type 'all' may
      leave `match` out; a truthy `components` must be an array of strings.
      Other keys are ignored. */
  ghost predicate WellFormed(kind: Kind, option: Json) {
    && option.JObj?
    && Get(option.fields, "type").Some?
    && SetOpOf(Get(option.fields, "type").value).Some?
    && (if Get(option.fields, "match").Some? then MatchOf(Get(option.fields, "match").value).Some?
        else kind == ExtendKind && Get(option.fields, "type") == Some(JStr("all")))
    && (Truthy(Get(option.fields, "components")) ==> IsStringArray(Get(option.fields, "components").value))
  }

  /** `_check`: the JavaScript `typeof option === 'object'` test, the key
      loop, then the `components` test. A null payload makes the key test
      throw and is excluded here; the caller treats it as a crash. */
  function Check(kind: Kind, option: Json): (ok: bool)
    requires !option.JNull?
    ensures ok <==> WellFormed(kind, option)
  {
    match option
    case JObj(fields) =>
      assert OptionKeys[1..] == ["type"] && ["type"][1..] == [];
      assert CheckKeys(kind, fields, ["type"])
        <==> Get(fields, "type").Some? && SetOpOf(Get(fields, "type").value).Some?;
      && CheckKeys(kind, fields, OptionKeys)
      && (var comps := Get(fields, "components");
          Truthy(comps) ==> IsStringArray(comps.value))
    case JArr(_) =>
      // 'match' in [] is false and [].type is undefined
      false
    case _ => false
  }

  /** The options a valid payload carries. */
  function Decode(kind: Kind, option: Json): (o: Options)
    requires !option.JNull? && Check(kind, option)
    ensures Some(o.setOp) == SetOpOf(Get(option.fields, "type").value)
    ensures o.matchBy.None? <==> Get(option.fields, "match").None?
    ensures o.matchBy.Some? ==> Some(o.matchBy.value) == MatchOf(Get(option.fields, "match").value)
    ensures o.matchBy.None? ==> kind == ExtendKind && o.setOp == All
    ensures o.components.Some? <==> Truthy(Get(option.fields, "components"))
    ensures o.components.Some? ==> o.components.value == StringItems(Get(option.fields, "components").value)
  {
    var fields := option.fields;
    var m := Get(fields, "match");
    var comps := Get(fields, "components");
    Options(
      if m.Some? then MatchOf(m.value) else None,
      SetOpOf(Get(fields, "type").value).value,
      if Truthy(comps) then Some(StringItems(comps.value)) else None)
  }

  /** `THEMES.isValid` followed by the copy `[...themes]`: any array of
      strings is accepted, empty or not, named themes present or not. */
  function ThemeList(v: Json): (r: Option<seq<string>>)
    ensures r.Some? <==> v.JArr? && forall i :: 0 <= i < |v.items| ==> v.items[i].JStr?
    ensures r.Some? ==> |r.value| == |v.items| && forall i :: 0 <= i < |r.value| ==> v.items[i] == JStr(r.value[i])
  {
    if IsStringArray(v) then Some(StringItems(v)) else None
  }
}
