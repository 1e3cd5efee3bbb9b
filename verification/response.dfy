/** The check `Card.add` applies to the flashcard service's reply before it
    hands back the reply's `result`. The reply is the decoded JSON object. */
module Response {
  import opened Wrappers

  /** A decoded JSON value (numbers are modelled as integers). */
  datatype Json =
    | JNull
    | JBool(b: bool)
    | JNumber(n: int)
    | JString(s: string)
    | JArray(items: seq<Json>)
    | JObject(fields: map<string, Json>)

  /** Why a reply is refused: the first three are shape errors, the last
      carries the service's own `error` value as the exception's message. */
  datatype ResponseError =
    | WrongFieldCount
    | MissingError
    | MissingResult
    | ServiceError(message: Json)

  /** The reply is accepted only with exactly the keys `error` and `result`
      and a null `error`; its `result` is then returned. The guards run in the
      source's order: size, `error` present, `result` present, `error` null. */
  function CheckResponse(response: map<string, Json>): (r: Result<Json, ResponseError>)
    ensures r.Success? <==> response.Keys == {"error", "result"} && response["error"] == JNull
    ensures r.Success? ==> r.value == response["result"]
    ensures |response| != 2 ==> r == Failure(WrongFieldCount)
    ensures |response| == 2 && "error" !in response ==> r == Failure(MissingError)
    ensures |response| == 2 && "error" in response && "result" !in response ==> r == Failure(MissingResult)
    ensures r.Failure? && r.error.ServiceError? <==>
            response.Keys == {"error", "result"} && response["error"] != JNull
    ensures r.Failure? && r.error.ServiceError? ==> r.error.message == response["error"]
  {
    if |response| != 2 then Failure(WrongFieldCount)
    else if "error" !in response then Failure(MissingError)
    else if "result" !in response then Failure(MissingResult)
    else
      TwoKnownKeys(response);
      if response["error"] != JNull then Failure(ServiceError(response["error"]))
      else Success(response["result"])
  }

  /** A two-entry reply that has both expected keys has no other key. */
  lemma TwoKnownKeys(response: map<string, Json>)
    requires |response| == 2 && "error" in response && "result" in response
    ensures response.Keys == {"error", "result"}
  {
    var expected: set<string> := {"error", "result"};
    assert |expected| == 2;
    assert expected <= response.Keys;
    var others := response.Keys - expected;
    assert response.Keys == expected + others;
    assert expected * others == {};
    assert |others| == 0;
    assert others == {};
  }

  /** Example replies: a result with a null error is returned; a non-null
      error fails with that error; a reply without an `error` key fails on
      its shape. */
  lemma ExampleReplies()
    ensures CheckResponse(map["result" := JNumber(123), "error" := JNull]) == Success(JNumber(123))
    ensures CheckResponse(map["result" := JNull, "error" := JString("deck not found")])
            == Failure(ServiceError(JString("deck not found")))
    ensures CheckResponse(map["result" := JNumber(123)]).Failure?
  {
    var missing := map["result" := JNumber(123)];
    assert |missing| == 1 by { assert missing.Keys == {"result"}; }
  }
}
