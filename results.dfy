/** Optional values and handler outcomes shared by both services. */
module Results {

  /** A value that may be absent: the model of a nullable Java field. */
  datatype Option<+T> = None | Some(value: T)

  /**
   * What a REST handler answers. Each failure carries the reason that the
   * handler puts in its error body; success statuses (200, 201, 204) are not
   * distinguished.
   */
  datatype Outcome<+T, +E> =
    | Ok(value: T)
    | BadRequest(reason: E)
    | NotFound(reason: E)
    | Conflict(reason: E)
    | Unauthorized(reason: E)
}
