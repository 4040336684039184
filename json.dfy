/** The part of Gson's JSON tree the manifest uses. An object keeps its members in
    insertion order, as Gson's `JsonObject` does. */
module Json {
  import opened Wrappers

  datatype Json =
    | JString(str: string)
    | JNumber(num: int)
    | JArray(items: seq<Json>)
    | JObject(members: seq<(string, Json)>)

  function Find(members: seq<(string, Json)>, key: string): (r: Option<Json>)
    ensures r.None? <==> forall i :: 0 <= i < |members| ==> members[i].0 != key
  {
    if members == [] then None
    else if members[0].0 == key then Some(members[0].1)
    else Find(members[1..], key)
  }

  /** `object.get(key)`; `None` for a missing key or a value that is not an object. */
  function Get(j: Json, key: string): Option<Json>
  {
    if j.JObject? then Find(j.members, key) else None
  }

  /** The member at index `i` is what a lookup finds when no earlier member has its key. */
  lemma {:induction false} FindAt(members: seq<(string, Json)>, i: nat)
    requires i < |members|
    requires forall k :: 0 <= k < i ==> members[k].0 != members[i].0
    ensures Find(members, members[i].0) == Some(members[i].1)
  {
    if i > 0 {
      FindAt(members[1..], i - 1);
    }
  }
}
