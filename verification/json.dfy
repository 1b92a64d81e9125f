/** A decoded JSON document, as Go's `encoding/json` hands it over as `interface{}` values. */
module Json {
  import opened Wrappers

  /** Objects keep their members in document order, duplicates included. */
  datatype JsonValue =
    | JNull
    | JBool(b: bool)
    | JNumber(n: real)
    | JString(s: string)
    | JArray(items: seq<JsonValue>)
    | JObject(members: seq<(string, JsonValue)>)

  /** Looking a key up in a decoded object (`m[key]` on the `map[string]interface{}`): absent when
      no member has that key; otherwise the value of the LAST member with that key, because Go's
      decoder overwrites an earlier map entry with a later duplicate. */
  function Get(members: seq<(string, JsonValue)>, key: string): (r: Option<JsonValue>)
    ensures r.None? <==> forall i :: 0 <= i < |members| ==> members[i].0 != key
    ensures r.Some? ==> exists i :: 0 <= i < |members| && members[i] == (key, r.value)
                                   && forall j :: i < j < |members| ==> members[j].0 != key
  {
    if |members| == 0 then None
    else if members[|members| - 1].0 == key then Some(members[|members| - 1].1)
    else Get(members[..|members| - 1], key)
  }

  /** A later member with another key leaves a lookup unchanged. */
  lemma GetIgnoresOtherKey(members: seq<(string, JsonValue)>, other: string, v: JsonValue, key: string)
    requires other != key
    ensures Get(members + [(other, v)], key) == Get(members, key)
  {
    assert (members + [(other, v)])[..|members|] == members;
  }

  /** `v.([]interface{})` with the failure ignored: the elements of an array, and an empty (nil)
      list for a missing key or a value of any other type. */
  function ListOf(v: Option<JsonValue>): (items: seq<JsonValue>)
    ensures |items| > 0 ==> v.Some? && v.value.JArray? && v.value.items == items
  {
    match v
    case Some(JArray(items)) => items
    case _ => []
  }

  /** `v.(map[string]interface{})`: the members of an object, nothing for any other value. */
  function ObjectOf(v: JsonValue): (r: Option<seq<(string, JsonValue)>>)
    ensures r.Some? <==> v.JObject?
    ensures r.Some? ==> v == JObject(r.value)
  {
    match v
    case JObject(members) => Some(members)
    case _ => None
  }
}
