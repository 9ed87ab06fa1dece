/**
 * The error translation of `handle_endpoint_exceptions`
 * (server/utils/exception_helpers.py): a handler either produces its result
 * or fails, and each failure becomes exactly one HTTP error.
 */
module ExceptionHelpers {
  import opened Wrappers

  /**
   * What the `except` clauses can see of a raised exception: whether it is a
   * `ValueError`, whether it is a `requests.RequestException`, and the status
   * of the upstream response it carries, if any.
   */
  datatype Failure = Failure(isValueError: bool, isRequestException: bool, response: Option<int>)

  /** One call of the handler, or the awaiting of what it returned. */
  datatype Call<T> = Returns(value: T) | Raises(failure: Failure)

  /** A sync handler returns its value; an async one returns an awaitable that is then awaited. */
  datatype Handler<T> = Sync(call: Call<T>) | Async(awaited: Call<T>)

  datatype HttpException = HttpException(status: int, detail: string)

  /** The statuses passed through from the upstream service. */
  const ClientErrorStatuses: set<int> := {400, 401, 403, 404}

  /** Every status the wrapper can raise. */
  const WrapperStatuses: set<int> := {400, 401, 403, 404, 500, 502, 503}

  /** Lines 23-49: the first matching `except` clause decides. */
  function Classify(f: Failure): (r: HttpException)
    ensures r.status in WrapperStatuses
    ensures r.status == 500 <==> !f.isValueError && !f.isRequestException
    ensures r.status == 503 <==> !f.isValueError && f.isRequestException && f.response.None?
    ensures r.status == 502 <==>
      !f.isValueError && f.isRequestException && f.response.Some? && f.response.value !in ClientErrorStatuses
  {
    if f.isValueError then HttpException(400, "Invalid input")
    else if f.isRequestException then
      match f.response
      case Some(status) =>
        if status in ClientErrorStatuses then HttpException(status, "Upstream service returned a client error")
        else HttpException(502, "Upstream service error")
      case None => HttpException(503, "Unable to reach upstream service")
    else HttpException(500, "Internal server error")
  }

  /** The wrapper: a value is passed on unchanged, a failure is translated. */
  function HandleEndpoint<T>(h: Handler<T>): (r: Result<T, HttpException>)
    ensures var c := if h.Sync? then h.call else h.awaited;
      && (c.Returns? ==> r == Ok(c.value))
      && (c.Raises? ==> r == Err(Classify(c.failure)))
  {
    var c := match h case Sync(call) => call case Async(awaited) => awaited;
    match c
    case Returns(v) => Ok(v)
    case Raises(f) => Err(Classify(f))
  }

  /** The `ValueError` clause comes first, so it wins even for a request error that is also a `ValueError`. */
  lemma ValueErrorFirst(f: Failure)
    requires f.isValueError
    ensures Classify(f) == HttpException(400, "Invalid input")
  {
  }

  /**
   * A client error of the upstream service keeps its status; any other
   * upstream status, even a 502 or 503 of the upstream itself, is reported
   * as a 502.
   */
  lemma UpstreamStatuses(f: Failure)
    requires !f.isValueError && f.isRequestException && f.response.Some?
    ensures f.response.value in ClientErrorStatuses ==>
      Classify(f) == HttpException(f.response.value, "Upstream service returned a client error")
    ensures f.response.value !in ClientErrorStatuses ==> Classify(f) == HttpException(502, "Upstream service error")
  {
  }

  /** A 400 comes either from the wrapper's own `ValueError` clause or from an upstream 400. */
  lemma StatusFourHundredOrigins(f: Failure)
    ensures Classify(f).status == 400 <==>
      f.isValueError || (f.isRequestException && f.response == Some(400))
  {
  }

  /** An `HTTPException` the handler raises itself is neither of the two kinds, so it becomes a 500. */
  lemma OwnHttpExceptionBecomes500()
    ensures Classify(Failure(false, false, None)).status == 500
    ensures Classify(Failure(false, false, Some(404))).status == 500
  {
  }
}
