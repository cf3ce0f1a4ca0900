/**
 * The shapes the REST layer exchanges: JSON bodies, HTTP responses, and the
 * per-field error lists a serializer collects before it reports `is_valid()`.
 */
module Api {

  /** The JSON values the handlers build: strings, lists and ordered objects. */
  datatype Json =
    | JStr(text: string)
    | JList(items: seq<Json>)
    | JObj(members: seq<(string, Json)>)

  /** The keys of an object, in order; empty for anything else. */
  function Keys(j: Json): (ks: seq<string>)
    ensures j.JObj? ==> |ks| == |j.members|
    ensures j.JObj? ==> forall i | 0 <= i < |ks| :: ks[i] == j.members[i].0
  {
    if j.JObj? then seq(|j.members|, i requires 0 <= i < |j.members| => j.members[i].0) else []
  }

  datatype Response = Response(status: nat, body: Json)

  const Ok200: nat := 200
  const Created201: nat := 201
  const BadRequest400: nat := 400
  const Unauthorized401: nat := 401
  const ServerError500: nat := 500

  /** One entry of `serializer.errors`: the field (or `non_field_errors`) and its message. */
  datatype FieldError = FieldError(field: string, message: string)

  const NonFieldErrors := "non_field_errors"

  /** Messages of the framework's own field checks. */
  const RequiredMessage := "This field is required."
  const BlankMessage := "This field may not be blank."

  /**
   * What `serializer.is_valid()` leads to: validated data, the collected
   * field errors, or an exception that is not a validation error and so
   * escapes the serializer.
   */
  datatype Checked<+T> = Accepted(value: T) | Invalid(errors: seq<FieldError>) | Crashed(cause: string)

  /** `serializer.errors` as a JSON object: each field maps to its list of messages. */
  function ErrorsJson(errors: seq<FieldError>): (j: Json)
    ensures j.JObj? && |j.members| == |errors|
    ensures forall i | 0 <= i < |errors| ::
      j.members[i] == (errors[i].field, JList([JStr(errors[i].message)]))
  {
    JObj(seq(|errors|, i requires 0 <= i < |errors| =>
      (errors[i].field, JList([JStr(errors[i].message)]))))
  }

  /** The `{'status': ..., 'message': ...}` envelope every handler answers with. */
  function Envelope(status: string, message: string): Json {
    JObj([("status", JStr(status)), ("message", JStr(message))])
  }
}
