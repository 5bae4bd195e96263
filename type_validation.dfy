/** `validateFragment`: a payload declared as JSON must be a JSON text;
    every other declared type is accepted as it is. The message of the
    `SyntaxError` that `JSON.parse` throws is an input, `syntaxError`. */
module TypeValidation {
  import opened Wrappers
  import Json

  const JsonType := "application/json"

  function InvalidJson(syntaxError: string): string {
    "Invalid JSON data, " + syntaxError
  }

  /** Succeeds, or fails with the message the source throws. The switch
      compares the declared type as a whole string: only the exact base
      type `application/json` is checked. */
  function ValidateFragment(data: Bytes, fragmentType: string, syntaxError: string): (r: Result<()>)
    ensures fragmentType != JsonType ==> r.Ok?
    ensures fragmentType == JsonType ==> (r.Ok? <==> Json.WellFormed(data))
    ensures r.Err? ==> r.msg == InvalidJson(syntaxError)
  {
    if fragmentType == JsonType && !Json.WellFormed(data) then Err(InvalidJson(syntaxError))
    else Ok(())
  }

  /** A JSON type that still carries parameters is not checked at all. */
  lemma JsonWithParametersIsNotChecked(data: Bytes, fragmentType: string, syntaxError: string)
    requires |fragmentType| > |JsonType| && fragmentType[..|JsonType|] == JsonType
    ensures ValidateFragment(data, fragmentType, syntaxError).Ok?
  {
    assert fragmentType != JsonType;
  }

  /** An empty or blank JSON payload is rejected. */
  lemma BlankJsonIsRejected(data: Bytes, syntaxError: string)
    requires forall k :: 0 <= k < |data| ==> Json.IsWhitespace(data[k])
    ensures ValidateFragment(data, JsonType, syntaxError) == Err(InvalidJson(syntaxError))
  {
    Json.BlankIsNotJson(data);
  }
}
