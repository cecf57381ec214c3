/** Values shared by every handler: optional values, the parsed JSON request body and
    JavaScript truthiness. */
module Common {

  datatype Option<+T> = None | Some(value: T)

  datatype Result<+R, +E> = Success(value: R) | Failure(error: E)

  /** A JSON value as `express.json()` hands it to a handler. Nested objects and
      arrays are not part of this model. */
  datatype Json = JString(s: string) | JBool(b: bool) | JNumber(n: int) | JNull

  /** JavaScript truthiness of a JSON value (`name && {...}`). */
  predicate Truthy(j: Json) {
    match j
    case JString(s) => s != ""
    case JBool(b) => b
    case JNumber(n) => n != 0
    case JNull => false
  }

  /** A request body: the members of the JSON object in the order they were written. */
  type Body = seq<(string, Json)>

  /** `req.body[key]`: the value of the last member with that key (JSON.parse keeps
      the last of duplicated keys), or None when the key is absent. */
  function Lookup(body: Body, key: string): (v: Option<Json>)
    ensures v.Some? <==> exists i :: 0 <= i < |body| && body[i].0 == key
    ensures v.Some? ==> exists i :: 0 <= i < |body| && body[i] == (key, v.value)
                                    && forall j :: i < j < |body| ==> body[j].0 != key
    decreases |body|
  {
    if body == [] then None
    else if body[|body| - 1].0 == key then Some(body[|body| - 1].1)
    else
      var front := body[..|body| - 1];
      var v := Lookup(front, key);
      assert forall i :: 0 <= i < |front| ==> front[i] == body[i];
      assert v.Some? ==> exists i :: 0 <= i < |body| && body[i] == (key, v.value)
                                     && forall j :: i < j < |body| ==> body[j].0 != key by {
        if v.Some? {
          var i :| 0 <= i < |front| && front[i] == (key, v.value)
                   && forall j :: i < j < |front| ==> front[j].0 != key;
          assert forall j :: i < j < |body| ==> body[j].0 != key;
        }
      }
      v
  }

  /** The string held under `key`, or "" when it is absent or not a string. */
  function Text(body: Body, key: string): string {
    match Lookup(body, key)
    case Some(JString(s)) => s
    case _ => ""
  }

  /** `req.body[key]` when it is a string. */
  function StringAt(body: Body, key: string): (v: Option<string>)
    ensures v.Some? <==> Lookup(body, key).Some? && Lookup(body, key).value.JString?
    ensures v.Some? ==> v.value == Text(body, key)
  {
    match Lookup(body, key)
    case Some(JString(s)) => Some(s)
    case _ => None
  }

  /** `req.body[key]` when it is a JSON boolean. */
  function BoolAt(body: Body, key: string): (v: Option<bool>)
    ensures v.Some? <==> Lookup(body, key).Some? && Lookup(body, key).value.JBool?
    ensures v.Some? ==> Lookup(body, key) == Some(JBool(v.value))
  {
    match Lookup(body, key)
    case Some(JBool(b)) => Some(b)
    case _ => None
  }
}
