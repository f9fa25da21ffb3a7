/**
 * The API's error-handling middleware: it runs the rest of the request pipeline and turns
 * an exception escaping it into an error response (a status code, a JSON content type and,
 * when there is something to report, a body whose single field `errors` carries it).
 */
module ErrorHandling {
  import opened Wrappers

  /** What `errors` can hold: the error object a `RestException` carries, or a message. */
  datatype ErrorPayload = Structured(fields: map<string, string>) | Message(text: string)

  /**
   * An exception escaping the pipeline: a `RestException` with its HTTP code and its
   * (possibly null) errors, or any other exception with its (possibly null) message.
   */
  datatype Exception =
    | RestException(code: int, errors: Option<ErrorPayload>)
    | ServerException(message: Option<string>)

  /** The object serialized as the response body, `{ errors }`. */
  datatype ErrorBody = ErrorBody(errors: ErrorPayload)

  /** How the rest of the pipeline ended. */
  datatype Completion = Completed | Threw(ex: Exception)

  const InternalServerError: int := 500
  const JsonContentType: string := "application/json"
  const FallbackMessage: string := "Error"

  /** `char.IsWhiteSpace`: the Unicode space separators, the line and paragraph separators, and U+0009 to U+000D, U+0085, U+00A0. */
  predicate IsWhiteSpace(c: char) {
    || ('\U{9}' <= c <= '\U{D}')
    || c == ' ' || c == '\U{85}' || c == '\U{A0}' || c == '\U{1680}'
    || ('\U{2000}' <= c <= '\U{200A}')
    || c == '\U{2028}' || c == '\U{2029}' || c == '\U{202F}' || c == '\U{205F}' || c == '\U{3000}'
  }

  /** `string.IsNullOrWhiteSpace`: null, empty, or white space only. */
  predicate IsNullOrWhiteSpace(s: Option<string>): (r: bool)
    ensures !r <==> s.Some? && exists i :: 0 <= i < |s.value| && !IsWhiteSpace(s.value[i])
    ensures s == Some("") ==> r
  {
    match s
    case None => true
    case Some(t) => forall i :: 0 <= i < |t| ==> IsWhiteSpace(t[i])
  }

  /**
   * The `errors` the switch settles on: a `RestException`'s own errors (null stays null);
   * for any other exception its message, or "Error" when the message is blank.
   */
  function ErrorsOf(ex: Exception): (r: Option<ErrorPayload>)
    ensures r.None? <==> ex.RestException? && ex.errors.None?
    ensures ex.RestException? ==> r == ex.errors
    ensures ex.ServerException? ==> r.Some? && r.value.Message? && !IsNullOrWhiteSpace(Some(r.value.text))
    ensures ex.ServerException? && !IsNullOrWhiteSpace(ex.message) ==> r == Some(Message(ex.message.value))
    ensures ex.ServerException? && IsNullOrWhiteSpace(ex.message) ==> r == Some(Message(FallbackMessage))
  {
    match ex
    case RestException(_, errors) => errors
    case ServerException(message) =>
      assert FallbackMessage[0] == 'E';
      if IsNullOrWhiteSpace(message) then Some(Message(FallbackMessage)) else Some(Message(message.value))
  }

  /** The status code the switch settles on: a `RestException`'s own code, 500 for anything else. */
  function StatusOf(ex: Exception): (r: int)
    ensures ex.RestException? ==> r == ex.code
    ensures !ex.RestException? ==> r == InternalServerError
  {
    match ex
    case RestException(code, _) => code
    case ServerException(_) => InternalServerError
  }

  /** A response's status code, content type and the bodies written to it, in order. */
  class HttpResponse {
    var statusCode: int
    var contentType: Option<string>
    var written: seq<ErrorBody>

    constructor ()
      ensures statusCode == 200 && contentType == None && written == []
    {
      statusCode := 200;
      contentType := None;
      written := [];
    }

    /** `HandleExceptionAsync`: status and content type are set; a body is written iff there are errors. */
    method HandleException(ex: Exception)
      modifies this
      ensures statusCode == StatusOf(ex)
      ensures contentType == Some(JsonContentType)
      ensures ErrorsOf(ex).Some? ==> written == old(written) + [ErrorBody(ErrorsOf(ex).value)]
      ensures ErrorsOf(ex).None? ==> written == old(written)
    {
      var errors: Option<ErrorPayload> := None;
      match ex {
        case RestException(code, restErrors) =>
          errors := restErrors;
          statusCode := code;
        case ServerException(message) =>
          errors := if IsNullOrWhiteSpace(message) then Some(Message(FallbackMessage)) else Some(Message(message.value));
          statusCode := InternalServerError;
      }
      contentType := Some(JsonContentType);
      if errors.Some? {
        written := written + [ErrorBody(errors.value)];
      }
    }

    /**
     * `Invoke`, the rest of the pipeline having ended as `next` with this response: a normal
     * completion leaves the response alone; an exception is handled and not rethrown.
     */
    method Invoke(next: Completion) returns (outcome: Completion)
      modifies this
      ensures outcome == Completed
      ensures next.Completed? ==> statusCode == old(statusCode) && contentType == old(contentType) && written == old(written)
      ensures next.Threw? ==> statusCode == StatusOf(next.ex) && contentType == Some(JsonContentType)
      ensures next.Threw? ==> written == old(written) + match ErrorsOf(next.ex)
        case Some(e) => [ErrorBody(e)]
        case None => []
    {
      if next.Threw? {
        HandleException(next.ex);
      }
      outcome := Completed;
    }
  }
}
