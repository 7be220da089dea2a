/** Shared vocabulary of the task manager model: optional values, the
    outcome of a controller action, and the clock's unit. */
module Common {

  /** A value that may be absent: C#'s `null` for reference types and `int?`. */
  datatype Option<+T> = None | Some(value: T)

  /** What a controller action hands back to ASP.NET: the status code and
      the body it carries. */
  datatype ActionResult<+T> =
    | Ok(value: T)                                              // 200 OkObjectResult
    | Created(action: string, routeId: Option<int>, value: T)   // 201 CreatedAtAction(action, route values, body)
    | NoContent                                                 // 204 NoContentResult
    | NotFound(reason: Option<string>)                          // 404 NotFound(msg), or a bare NotFound() when None
    | BadRequest(message: string)                               // 400 BadRequest(msg)
    | Unauthorized(message: string)                             // 401 Unauthorized(msg)
    | ServerError(message: string)                              // 500 StatusCode(500, msg)

  /** The message every `catch` block of the controllers answers with. */
  const InternalError: string := "Internal server error"

  /** A DateTime as .NET stores it: a count of 100-nanosecond ticks. */
  type DateTime = int

  const TicksPerMinute: int := 600_000_000

  /** DateTime.AddMinutes for whole minutes. */
  function AddMinutes(t: DateTime, minutes: int): DateTime
  {
    t + minutes * TicksPerMinute
  }
}
