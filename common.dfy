/** Values shared by every service: optional values, the HTTP exceptions the
    services throw, and the result of an operation that may throw one. */
module Common {

  /** A nullable column or an optional DTO field: None is `null`/absent. */
  datatype Option<T> = None | Some(value: T)

  /** The exceptions of the services, each with the message it carries. */
  datatype HttpError =
    | BadRequest(message: string)
    | Unauthorized(message: string)
    | NotFound(message: string)
    | Conflict(message: string)

  /** What an async service method resolves to (Ok) or rejects with (Err). */
  datatype Result<T> = Ok(value: T) | Err(error: HttpError)

  /** One field of `Object.assign(target, dto)`: a field present in the DTO
      replaces the target's value, an absent one leaves it alone. */
  function Overwrite<T>(current: T, given: Option<T>): (r: T)
    ensures given.None? ==> r == current
    ensures given.Some? ==> r == given.value
  {
    match given
    case None => current
    case Some(v) => v
  }

  /** The same for a nullable column: a present field sets a non-null value. */
  function OverwriteNullable<T>(current: Option<T>, given: Option<T>): (r: Option<T>)
    ensures given.None? ==> r == current
    ensures given.Some? ==> r == given
  {
    if given.Some? then given else current
  }
}
