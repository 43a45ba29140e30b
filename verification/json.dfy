/** Decoded JSON values as a Flask handler sees them after `request.get_json()`.
    A JSON object is a Python dict: its members are kept in insertion order
    as (key, value) pairs. */
module Json {

  datatype Value =
    | Null
    | Bool(b: bool)
    | Num(n: int)
    | Str(s: string)
    | List(items: seq<Value>)
    | Object(members: seq<(string, Value)>)

  /** Python dict keys are distinct. */
  predicate DistinctKeys(members: seq<(string, Value)>) {
    forall i, j :: 0 <= i < j < |members| ==> members[i].0 != members[j].0
  }

  /** What `json.loads` can produce: a repeated key keeps only its last
      value, so every object, at any depth, has distinct keys. */
  predicate WellFormed(v: Value) {
    match v
    case List(items) => forall i :: 0 <= i < |items| ==> WellFormed(items[i])
    case Object(ms) => DistinctKeys(ms) && forall i :: 0 <= i < |ms| ==> WellFormed(ms[i].1)
    case _ => true
  }

  /** A response body of the form `{"error": text}`. */
  function ErrorBody(text: string): Value {
    Object([("error", Str(text))])
  }

  /** A response body of the form `{"message": text}`. */
  function MessageBody(text: string): Value {
    Object([("message", Str(text))])
  }
}

/** An HTTP response as returned by a Flask view: `(jsonify(body), status)`. */
module Http {
  import Json

  datatype Response = Response(status: nat, body: Json.Value)

  function Error(status: nat, text: string): Response {
    Response(status, Json.ErrorBody(text))
  }

  function Message(status: nat, text: string): Response {
    Response(status, Json.MessageBody(text))
  }
}
