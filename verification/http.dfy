/** HTTP status codes the controllers answer with. */
module Http {
  const Ok: int := 200
  const Created: int := 201
  const NoContent: int := 204
  const BadRequest: int := 400
  const Unauthorized: int := 401
  const Forbidden: int := 403
  const NotFound: int := 404
  const Conflict: int := 409
  const Locked: int := 423
  const InternalServerError: int := 500
  const ServiceUnavailable: int := 503

  predicate IsSuccess(status: int) {
    200 <= status < 300
  }
}
