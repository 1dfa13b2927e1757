/**
 * The error signal of src/middleware/errorHandler.ts: `ApiError` (a status
 * and a message) and every other thrown `Error`.
 */
module Errors {

  /** What a handler can pass to `next(err)`: an `ApiError`, or any other `Error` (its `name` and `message`). */
  datatype Failure =
    | ApiError(statusCode: int, message: string)
    | OtherError(errorName: string, message: string)
  {
    /** The error's `name` property; the `ApiError` constructor sets it to 'ApiError'. */
    function Name(): string {
      match this
      case ApiError(_, _) => "ApiError"
      case OtherError(n, _) => n
    }
  }

  /** `new ApiError(statusCode, message)`. */
  function NewApiError(statusCode: int, message: string): (e: Failure)
    ensures e.ApiError? && e.statusCode == statusCode && e.message == message
    ensures e.Name() == "ApiError"
  {
    ApiError(statusCode, message)
  }
}

/**
 * The two responders of src/middleware/errorHandler.ts: `errorHandler`,
 * which turns whatever reached `next(err)` into the JSON error body, and
 * `notFoundHandler`, for a request no route matched.
 */
module ErrorHandler {
  import opened Wrappers
  import opened Errors
  import opened Http

  const Unknown := "unknown"
  const InternalServerError := "InternalServerError"
  const UnexpectedMessage := "An unexpected error occurred"
  const NotFoundError := "NotFound"
  const NoSuchResource := "The requested resource does not exist"

  /** `req.headers['x-request-id'] || 'unknown'`: the header when it is a non-empty string, since '' is falsy. */
  function RequestId(header: Option<string>): (id: string)
    ensures id != ""
    ensures header.Some? && header.value != "" ==> id == header.value
    ensures header.None? || header.value == "" ==> id == Unknown
  {
    match header
    case Some(h) => if h != "" then h else Unknown
    case None => Unknown
  }

  /** `errorHandler`: an `ApiError` keeps its status and message; anything else is a 500 that reveals nothing. */
  function HandleError(err: Failure, header: Option<string>): (r: Response)
    ensures err.ApiError? ==>
      r.status == err.statusCode && r.payload == ErrorJson("ApiError", err.message, RequestId(header))
    ensures err.OtherError? ==>
      r.status == 500 && r.payload == ErrorJson(InternalServerError, UnexpectedMessage, RequestId(header))
    ensures r.payload.ErrorJson? && r.payload.requestId == RequestId(header)
  {
    if err.ApiError? then
      Response(err.statusCode, ErrorJson(err.Name(), err.message, RequestId(header)))
    else
      Response(500, ErrorJson(InternalServerError, UnexpectedMessage, RequestId(header)))
  }

  /** Nothing of an unexpected error reaches the client: two such errors give the same response. */
  lemma InternalErrorsIndistinguishable(a: Failure, b: Failure, header: Option<string>)
    requires a.OtherError? && b.OtherError?
    ensures HandleError(a, header) == HandleError(b, header)
  {
  }

  /** `notFoundHandler`: a fixed 404 body for an unmatched route. */
  function NotFound(header: Option<string>): (r: Response)
    ensures r.status == 404
    ensures r.payload == ErrorJson(NotFoundError, NoSuchResource, RequestId(header))
  {
    Response(404, ErrorJson(NotFoundError, NoSuchResource, RequestId(header)))
  }

  /** An unknown route and an unknown user both answer 404, with different bodies. */
  lemma TwoKindsOfNotFound(header: Option<string>)
    ensures NotFound(header).status == HandleError(ApiError(404, "User not found"), header).status == 404
    ensures NotFound(header).payload != HandleError(ApiError(404, "User not found"), header).payload
  {
  }
}
