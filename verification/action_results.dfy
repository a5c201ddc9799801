/** The three action results the category controllers answer with, and their HTTP status codes. */
module ActionResults {
  /** `Ok(...)`, `Conflict(...)` or `NotFound(...)` around the response body. */
  datatype ActionResult<T> = Ok(body: T) | Conflict(body: T) | NotFound(body: T)
  {
    /** The HTTP status code: a different one for each kind of result. */
    function StatusCode(): (code: int)
      ensures code == 200 <==> Ok?
      ensures code == 409 <==> Conflict?
      ensures code == 404 <==> NotFound?
    {
      match this
      case Ok(_) => 200
      case Conflict(_) => 409
      case NotFound(_) => 404
    }
  }
}
