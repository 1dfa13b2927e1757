/**
 * The shapes of an Express request and response as the handlers see them:
 * the two body fields the handlers read, the path parameter `id` (which a
 * middleware rewrites), the `x-request-id` header, the response a handler
 * writes and the `next` call it makes instead.
 */
module Http {
  import opened Wrappers
  import opened Users
  import opened Errors

  /** A body field as parsed JSON delivers it: left out, a string, or a value of another type with its truthiness. */
  datatype BodyValue = Absent | Text(s: string) | OtherType(truthy: bool)
  {
    /** JavaScript's `!value`: true of undefined, and of a string only when it is empty. */
    predicate IsFalsy()
      ensures Absent? ==> IsFalsy()
      ensures Text? ==> (IsFalsy() <==> |s| == 0)
    {
      Absent? || (Text? && s == "") || (OtherType? && !truthy)
    }
  }

  /** `req.body` as far as `{ name, email }` destructuring sees it. */
  datatype RequestBody = RequestBody(name: BodyValue, email: BodyValue)

  /** One request: only `params.id` is written to (by the id validator). */
  class Request {
    const httpMethod: string
    var idParam: string
    const body: RequestBody
    const requestIdHeader: Option<string>

    constructor (httpMethod: string, idParam: string, body: RequestBody, requestIdHeader: Option<string>)
      ensures this.httpMethod == httpMethod && this.idParam == idParam
      ensures this.body == body && this.requestIdHeader == requestIdHeader
    {
      this.httpMethod := httpMethod;
      this.idParam := idParam;
      this.body := body;
      this.requestIdHeader := requestIdHeader;
    }
  }

  /** The JSON a response carries, or none (`send()` after 204). */
  datatype Payload =
    | UserJson(user: User)
    | UserListJson(users: seq<User>)
    | ErrorJson(error: string, message: string, requestId: string)
    | NoContent

  datatype Response = Response(status: int, payload: Payload)

  /** What a middleware or handler does: `next()`, `next(err)`, or write one response. */
  datatype Outcome = Next | NextError(error: Failure) | Respond(response: Response)
}
