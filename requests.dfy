/**
 * The request side of the handlers: query strings and form bodies as maps
 * from field name to value, replies as either a value or an HTTP error, and
 * the admin gate of the reporting endpoints.
 */
module Requests {

  /** Form or query-string fields; for a repeated field the first value. */
  type Params = map<string, string>

  /** `params.get(field, default)`. */
  function Get(params: Params, field: string, default: string): (r: string)
    ensures field in params ==> r == params[field]
    ensures field !in params ==> r == default
  {
    if field in params then params[field] else default
  }

  /** What a handler answers: its result, or an HTTP error status with a plain-text body. */
  datatype Reply<+T> = Ok(value: T) | Fail(status: nat, message: string)

  const BadRequest: nat := 400
  const Forbidden: nat := 403

  /**
   * `require_admin`: the `key` query parameter (empty when absent) must equal
   * the configured admin key, otherwise the request is aborted with 403.
   */
  function RequireAdmin(args: Params, adminKey: string): (r: Reply<()>)
    ensures r.Ok? <==> ("key" in args && args["key"] == adminKey) || ("key" !in args && adminKey == "")
    ensures r.Fail? ==> r.status == Forbidden
  {
    if Get(args, "key", "") != adminKey then Fail(Forbidden, "") else Ok(())
  }
}
