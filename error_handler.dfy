/** The shared error responder (config/error-handler.js): it turns a thrown
    error into a 400 or a 500 reply from the error's title, name and message. */
module ErrorHandler {
  import opened Records

  /** The fields of a thrown JavaScript error that the responder reads.
      `original` is the driver error the ORM wraps, when there is one. */
  datatype JsError = JsError(
    title: Option<string>,
    name: Option<string>,
    message: Option<string>,
    code: Option<string>,
    original: Option<JsError>)

  /** The JSON error reply: HTTP status, the `code` and `status` fields and the `error` object. */
  datatype ErrorReply = ErrorReply(
    httpStatus: int,
    code: string,
    status: string,
    title: Option<string>,
    message: Option<string>)

  /** `new TypeError(message)`. */
  function TypeErrorOf(message: string): JsError {
    JsError(None, Some("TypeError"), Some(message), None, None)
  }

  /** `new Error(message)`. */
  function ErrorOf(message: string): JsError {
    JsError(None, Some("Error"), Some(message), None, None)
  }

  /** JavaScript truthiness of an optional string: present and not empty. */
  predicate Truthy(s: Option<string>) {
    s.Some? && s.value != ""
  }

  /** `x || fallback` on an optional string. */
  function OrElse(s: Option<string>, fallback: string): (r: string)
    ensures Truthy(s) ==> r == s.value
    ensures !Truthy(s) ==> r == fallback
  {
    if Truthy(s) then s.value else fallback
  }

  /** The name the decision is made on: the title, else the name, else "Error". */
  function ErrorName(e: JsError): (n: string)
    ensures Truthy(e.title) ==> n == e.title.value
    ensures !Truthy(e.title) && Truthy(e.name) ==> n == e.name.value
    ensures !Truthy(e.title) && !Truthy(e.name) ==> n == "Error"
  {
    OrElse(e.title, OrElse(e.name, "Error"))
  }

  /** A type error or an ORM validation error is the client's fault. */
  predicate IsBadRequest(e: JsError) {
    ErrorName(e) == "TypeError" || e.message == Some("Validation error")
  }

  function HandleError(e: JsError): (r: ErrorReply)
    ensures r.httpStatus == 400 || r.httpStatus == 500
    ensures r.httpStatus == 400 <==> IsBadRequest(e)
    ensures r.httpStatus == 400 ==>
              var inner := if e.original.Some? then e.original.value else e;
              && r.code == "400"
              && r.status == OrElse(inner.code, "BAD_REQUEST")
              && r.title == Some(OrElse(inner.title, OrElse(inner.name, "object")))
              && r.message == inner.message
    ensures r.httpStatus == 500 ==>
              && r.code == "500"
              && r.status == "INTERNAL_SERVER_ERROR"
              && r.title == e.title
              && r.message == e.message
  {
    if IsBadRequest(e) then
      var inner := if e.original.Some? then e.original.value else e;
      ErrorReply(400, "400", OrElse(inner.code, "BAD_REQUEST"),
                 Some(OrElse(inner.title, OrElse(inner.name, "object"))), inner.message)
    else
      ErrorReply(500, "500", "INTERNAL_SERVER_ERROR", e.title, e.message)
  }

  /** Every `throw new TypeError(m)` is answered 400 BAD_REQUEST with title
      "TypeError" and message `m`: this is how "not found" surfaces as 400. */
  lemma TypeErrorIsBadRequest(m: string)
    ensures HandleError(TypeErrorOf(m)) == ErrorReply(400, "400", "BAD_REQUEST", Some("TypeError"), Some(m))
  {
  }

  /** A plain `new Error(m)` is answered 500, unless `m` is "Validation error". */
  lemma PlainErrorIsInternal(m: string)
    ensures HandleError(ErrorOf(m)).httpStatus == 500 <==> m != "Validation error"
  {
  }

  /** A wrapped driver error decides the status field of a 400 reply. */
  lemma WrappedErrorReportsDriverCode(e: JsError, driver: JsError)
    requires e.original == Some(driver) && e.message == Some("Validation error")
    requires Truthy(driver.code)
    ensures HandleError(e).httpStatus == 400
    ensures HandleError(e).status == driver.code.value
    ensures HandleError(e).message == driver.message
  {
  }
}
