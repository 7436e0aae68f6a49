/**
 * `handleApiError`, the helper each client slice uses to turn a failed
 * request into the message stored in the slice's `error` field. The three
 * slices carry identical copies of it.
 */
module ApiErrors {
  import opened Wrappers
  import Text

  /** The JSON body of an error response: validation errors per field
      (`errors`) and a summary (`title`). */
  datatype ApiErrorBody = ApiErrorBody(errors: Option<seq<(string, seq<string>)>>, title: Option<string>)

  datatype ErrorResponse = ErrorResponse(data: Option<ApiErrorBody>)

  /** What the request threw: the HTTP response, if one came back, and the message. */
  datatype CaughtError = CaughtError(response: Option<ErrorResponse>, message: Option<string>)

  const DefaultMessage: string := "An error occurred"

  /** JavaScript's `value || fallback` for a possibly absent string: the
      empty string is falsy too. */
  function OrElse(value: Option<string>, fallback: string): (r: string)
    ensures value.Some? && value.value != "" ==> r == value.value
    ensures value.None? || value.value == "" ==> r == fallback
  {
    if value.Some? && value.value != "" then value.value else fallback
  }

  /** `${key}: ${messages.join(", ")}` for one field. */
  function FieldMessage(field: (string, seq<string>)): (r: string)
    ensures field.0 + ": " <= r
    ensures field.1 == [] ==> r == field.0 + ": "
    ensures |field.1| == 1 ==> r == field.0 + ": " + field.1[0]
  {
    field.0 + ": " + Text.Join(field.1, ", ")
  }

  /** One formatted message per field, in the order of `Object.entries`. */
  function FieldMessages(fields: seq<(string, seq<string>)>): (r: seq<string>)
    ensures |r| == |fields|
    ensures forall i :: 0 <= i < |fields| ==> r[i] == FieldMessage(fields[i])
  {
    seq(|fields|, i requires 0 <= i < |fields| => FieldMessage(fields[i]))
  }

  /** The per-field validation errors of the response, when the body has them. */
  function FieldErrors(error: CaughtError): Option<seq<(string, seq<string>)>> {
    if error.response.Some? && error.response.value.data.Some? then error.response.value.data.value.errors
    else None
  }

  /** A failure whose response body carries exactly the field errors `fields`. */
  function WithFieldErrors(fields: seq<(string, seq<string>)>): (error: CaughtError)
    ensures FieldErrors(error) == Some(fields)
  {
    CaughtError(Some(ErrorResponse(Some(ApiErrorBody(Some(fields), None)))), None)
  }

  /** With field errors, the field messages in entry order joined by "; "
      (an empty `errors` object gives ""); otherwise the body's title, else
      the thrown message, else the default, where "" counts as absent. */
  function HandleApiError(error: CaughtError): (r: string)
    ensures FieldErrors(error).Some? ==> r == Text.Join(FieldMessages(FieldErrors(error).value), "; ")
    ensures FieldErrors(error).Some? ==>
      var fields := FieldErrors(error).value;
      forall i :: 0 <= i < |fields| ==> Text.Contains(r, FieldMessage(fields[i]))
    ensures FieldErrors(error).None? ==> r != ""
    ensures FieldErrors(error).None? && error.response.Some? && error.response.value.data.Some? ==>
      r == OrElse(error.response.value.data.value.title, DefaultMessage)
    ensures error.response.None? || error.response.value.data.None? ==> r == OrElse(error.message, DefaultMessage)
  {
    if error.response.Some? && error.response.value.data.Some? then
      var apiError := error.response.value.data.value;
      if apiError.errors.Some? then
        var fields := apiError.errors.value;
        var parts := FieldMessages(fields);
        assert forall i :: 0 <= i < |fields| ==> Text.Contains(Text.Join(parts, "; "), FieldMessage(fields[i])) by {
          forall i | 0 <= i < |fields| ensures Text.Contains(Text.Join(parts, "; "), FieldMessage(fields[i])) {
            Text.JoinContainsPart(parts, "; ", i);
          }
        }
        Text.Join(parts, "; ")
      else OrElse(apiError.title, DefaultMessage)
    else OrElse(error.message, DefaultMessage)
  }

  /** A single field with a single message formats as `key: message`. */
  lemma SingleFieldError(error: CaughtError, key: string, message: string)
    requires FieldErrors(error) == Some([(key, [message])])
    ensures HandleApiError(error) == key + ": " + message
  {
  }

  /** The fields `a + b` format as the text for `a`, then "; ", then the text
      for `b`: nothing but the field messages, each once and in entry order. */
  lemma FieldErrorsSplit(error: CaughtError, a: seq<(string, seq<string>)>, b: seq<(string, seq<string>)>)
    requires FieldErrors(error) == Some(a + b)
    requires a != [] && b != []
    ensures HandleApiError(error) == HandleApiError(WithFieldErrors(a)) + "; " + HandleApiError(WithFieldErrors(b))
  {
    assert FieldMessages(a + b) == FieldMessages(a) + FieldMessages(b);
    Text.JoinAppend(FieldMessages(a), FieldMessages(b), "; ");
  }
}
