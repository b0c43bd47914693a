/** The values `JSON.parse` produces, with the two JavaScript operations the
    handler applies to them: truthiness (`if (v)`, `v || null`, `v ? a : b`)
    and reading a named property (`v.mesaj`, `item.address`). */
module JsonValues {

  import opened Wrappers

  /** A parsed JSON value. Numbers are exact reals (IEEE-754 rounding is not
      modelled); an object keeps its members in source order, duplicates included. */
  datatype Json =
    | JNull
    | JBool(b: bool)
    | JNumber(n: real)
    | JString(str: string)
    | JArray(items: seq<Json>)
    | JObject(members: seq<(string, Json)>)

  /** JavaScript truthiness: `null`, `false`, `0` and `""` are falsy; every
      array and object, even an empty one, is truthy. */
  predicate Truthy(v: Json) {
    match v
    case JNull => false
    case JBool(b) => b
    case JNumber(n) => n != 0.0
    case JString(s) => s != ""
    case JArray(_) => true
    case JObject(_) => true
  }

  /** The value bound to `key` by the last member that names it (`JSON.parse`
      lets a later duplicate key overwrite an earlier one). */
  function Lookup(members: seq<(string, Json)>, key: string): (r: Option<Json>)
    ensures r.Some? <==> exists i :: 0 <= i < |members| && members[i].0 == key
    ensures r.Some? ==> exists i :: 0 <= i < |members| && members[i] == (key, r.value)
                           && forall j :: i < j < |members| ==> members[j].0 != key
    decreases |members|
  {
    if members == [] then None
    else
      var last := members[|members| - 1];
      if last.0 == key then Some(last.1)
      else
        var r := Lookup(members[..|members| - 1], key);
        LastBindingBefore(members, key, r);
        r
  }

  /** `r` is the value of the last member naming `key`. */
  predicate LastBinding(members: seq<(string, Json)>, key: string, r: Option<Json>) {
    && (r.Some? <==> exists i :: 0 <= i < |members| && members[i].0 == key)
    && (r.Some? ==> exists i :: 0 <= i < |members| && members[i] == (key, r.value)
                      && forall j :: i < j < |members| ==> members[j].0 != key)
  }

  /** A last member that names another key does not change the last binding. */
  lemma LastBindingBefore(members: seq<(string, Json)>, key: string, r: Option<Json>)
    requires |members| >= 1 && members[|members| - 1].0 != key
    requires LastBinding(members[..|members| - 1], key, r)
    ensures LastBinding(members, key, r)
  {
    var n := |members| - 1;
    var init := members[..n];
    if i :| 0 <= i < |members| && members[i].0 == key {
      assert init[i].0 == key;
    }
    if r.Some? {
      var i :| 0 <= i < n && init[i] == (key, r.value) && forall j :: i < j < n ==> init[j].0 != key;
      assert members[i] == init[i];
      forall j | i < j < |members| ensures members[j].0 != key {
        if j < n {
          assert members[j] == init[j];
        }
      }
    }
  }

  /** The property read `v[key]`: only objects carry the properties the handler
      reads, so on `null`, booleans, numbers, strings and arrays it is
      `undefined` (`None`). Reading a property of `null` throws in JavaScript;
      callers that can meet `null` check for it first. */
  function Get(v: Json, key: string): (r: Option<Json>)
    ensures r.Some? ==> v.JObject?
    ensures v.JObject? ==> r == Lookup(v.members, key)
  {
    if v.JObject? then Lookup(v.members, key) else None
  }

  /** A property read yields a value exactly when `v` is an object with a
      member named `key`, and then it is the value of the last such member. */
  lemma GetFindsLastMember(v: Json, key: string)
    ensures Get(v, key).Some? <==> v.JObject? && exists i :: 0 <= i < |v.members| && v.members[i].0 == key
    ensures Get(v, key).Some? ==>
              exists i :: 0 <= i < |v.members| && v.members[i] == (key, Get(v, key).value)
                          && forall j :: i < j < |v.members| ==> v.members[j].0 != key
  {
  }
}
