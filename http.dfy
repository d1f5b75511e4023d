/**
 * What a route handler answers: a status code and a JSON body that is either
 * `{"error": ...}` or the handler's own payload. The caller is what
 * `token_required` hands to every handler: the token's user id and role.
 */
module Http {
  datatype Body<T> = Failure(error: string) | Success(value: T)

  datatype Response<T> = Response(code: int, body: Body<T>)

  /** The outcome of a guard that either lets the request through or answers for it. */
  datatype Gate = Pass | Deny(code: int, error: string)

  /** `current_user_id` and `current_user_role` as the handlers receive them. */
  datatype Caller = Caller(userId: int, role: string)

  /** A list answer with its `count` field. */
  datatype Listing<T> = Listing(items: seq<T>, count: int)

  function Fail<T>(code: int, error: string): Response<T> {
    Response(code, Failure(error))
  }

  function Denied<T>(g: Gate): Response<T>
    requires g.Deny?
  {
    Response(g.code, Failure(g.error))
  }

  function ListOf<T>(items: seq<T>): (r: Listing<T>)
    ensures r.items == items && r.count == |items|
  {
    Listing(items, |items|)
  }

  const InternalError := "Internal server error"
  const Unauthorized := "Unauthorized"
}
