/**
 * The JSON document tree that the org.json tokeniser produces. Tokenising text
 * into a tree belongs to the library and is a parameter of the model; only the
 * lookups that QueryUtils performs on the tree live here.
 */
module Json {
  import opened Optional

  /** A JSON value: an object (key to value), an array, a string, or any other scalar. */
  datatype Json =
    | JObject(members: map<string, Json>)
    | JArray(elements: seq<Json>)
    | JString(text: string)
    | JOther

  /** `JSONObject.getJSONObject(key)`: the members of the object under `key`, or None where it throws. */
  function GetObject(members: map<string, Json>, key: string): (r: Option<map<string, Json>>)
    ensures r.Some? <==> key in members && members[key].JObject?
    ensures r.Some? ==> members[key] == JObject(r.value)
  {
    if key in members && members[key].JObject? then Some(members[key].members) else None
  }

  /** `JSONObject.getJSONArray(key)`: the elements of the array under `key`, or None where it throws. */
  function GetArray(members: map<string, Json>, key: string): (r: Option<seq<Json>>)
    ensures r.Some? <==> key in members && members[key].JArray?
    ensures r.Some? ==> members[key] == JArray(r.value)
  {
    if key in members && members[key].JArray? then Some(members[key].elements) else None
  }

  /** `JSONObject.getString(key)`: the string under `key`, or None where it throws. */
  function GetString(members: map<string, Json>, key: string): (r: Option<string>)
    ensures r.Some? <==> key in members && members[key].JString?
    ensures r.Some? ==> members[key] == JString(r.value)
  {
    if key in members && members[key].JString? then Some(members[key].text) else None
  }
}
