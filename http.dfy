/**
 * The part of Spring's ResponseEntity the handlers decide: a status code and
 * a body, which is a returned value, a string-to-string error map, or absent.
 */
module Http {
  import opened Util

  datatype Body<+T> =
    | Payload(value: Option<T>)
    | ErrorMap(entries: map<string, string>)
    | NoBody

  datatype Response<+T> = Response(status: int, body: Body<T>)

  const OK := 200
  const CREATED := 201
  const NO_CONTENT := 204
  const BAD_REQUEST := 400
  const UNAUTHORIZED := 401
  const FORBIDDEN := 403
  const NOT_FOUND := 404
  const CONFLICT := 409
  const INTERNAL_SERVER_ERROR := 500

  /** Collections.singletonMap("error", message), as the controller and handler build it. */
  function ErrorBody<T>(message: string): (b: Body<T>)
    ensures b.ErrorMap? && b.entries.Keys == {"error"} && b.entries["error"] == message
  {
    ErrorMap(map["error" := message])
  }
}
