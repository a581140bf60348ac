/**
 * What the Go handlers rely on from HTTP: the status codes they send, the
 * decision a guard takes before the wrapped handler, and the response
 * writer, whose first status is the one the client receives.
 */
module Http {
  import Store

  const OK := 200
  const NoContent := 204
  const BadRequest := 400
  const NotFound := 404
  const Conflict := 409
  const InternalServerError := 500

  /** A guard either hands the request on to the wrapped handler or answers it itself. */
  datatype Decision = Next | Halt(status: int)

  /** One write to a response body: a plain-text error message or a JSON document. */
  datatype Payload<T> = Message(text: string) | Json(value: T)

  /**
   * A response writer: the status committed so far, if any, and what was
   * written to the body.
   */
  datatype Writer<T> = Writer(header: Store.Option<int>, body: seq<Payload<T>>)

  function Fresh<T>(): (w: Writer<T>)
    ensures w.header.None? && w.body == []
  {
    Writer(Store.None, [])
  }

  /** The status the client receives: the committed one, or 200 when the handler never set one. */
  function Status<T>(w: Writer<T>): (s: int)
    ensures w.header.Some? ==> s == w.header.value
    ensures w.header.None? ==> s == OK
  {
    match w.header
    case Some(code) => code
    case None => OK
  }

  /** `WriteHeader`: commits `code` unless a status is committed already, in which case it is ignored. */
  function WriteHeader<T>(w: Writer<T>, code: int): (r: Writer<T>)
    ensures r.body == w.body
    ensures r.header.Some?
    ensures w.header.Some? ==> r == w
    ensures w.header.None? ==> Status(r) == code
  {
    if w.header.Some? then w else w.(header := Store.Some(code))
  }

  /** `Write`: appends to the body, committing 200 first when no status is committed yet. */
  function Write<T>(w: Writer<T>, p: Payload<T>): (r: Writer<T>)
    ensures r.body == w.body + [p]
    ensures r.header.Some?
    ensures Status(r) == Status(w)
  {
    Writer(Store.Some(Status(w)), w.body + [p])
  }

  /** `http.Error`: the status, then the message. */
  function Error<T>(w: Writer<T>, msg: string, code: int): (r: Writer<T>)
    ensures w.header.None? ==> Status(r) == code
    ensures r.body == w.body + [Message(msg)]
  {
    Write(WriteHeader(w, code), Message(msg))
  }

  /** `writeJSON`: the encoded value, with whatever status is committed (200 if none). */
  function WriteJson<T>(w: Writer<T>, v: T): (r: Writer<T>)
    ensures Status(r) == Status(w)
    ensures r.body == w.body + [Json(v)]
  {
    Write(w, Json(v))
  }

  /** Once a status is committed, no later write changes what the client receives. */
  lemma CommittedStatusIsFinal<T>(w: Writer<T>, code: int, p: Payload<T>)
    requires w.header.Some?
    ensures Status(WriteHeader(w, code)) == Status(w)
    ensures Status(Write(w, p)) == Status(w)
    ensures Status(Error(w, "", code)) == Status(w)
  {
  }

  /**
   * The guard shape of `exerciseMustExist` and `workoutMustExist`: an id that
   * does not parse is a bad request, a failed lookup an internal error, an
   * entity that does not exist answers `missing`; only an existing entity
   * reaches the wrapped handler.
   */
  function ExistsGuard(parsed: Store.Option<int>, lookup: Store.Result<bool>, missing: int): (r: Decision)
    ensures r == Next <==> parsed.Some? && lookup == Store.Ok(true)
    ensures parsed.None? ==> r == Halt(BadRequest)
    ensures parsed.Some? && lookup.Err? ==> r == Halt(InternalServerError)
    ensures parsed.Some? && lookup == Store.Ok(false) ==> r == Halt(missing)
  {
    if parsed.None? then Halt(BadRequest)
    else if lookup.Err? then Halt(InternalServerError)
    else if !lookup.value then Halt(missing)
    else Next
  }

  /**
   * The guard shape of `setMustExist`, which fetches the row instead of
   * asking whether it exists: "no rows" is tested before any other error.
   */
  function RowGuard<T>(parsed: Store.Option<int>, lookup: Store.Result<T>, missing: int): (r: Decision)
    ensures r == Next <==> parsed.Some? && lookup.Ok?
    ensures parsed.None? ==> r == Halt(BadRequest)
    ensures parsed.Some? && lookup.Err? && lookup.error == Store.ErrNoRows ==> r == Halt(missing)
    ensures parsed.Some? && lookup.Err? && lookup.error != Store.ErrNoRows ==> r == Halt(InternalServerError)
  {
    if parsed.None? then Halt(BadRequest)
    else if lookup.Err? && lookup.error == Store.ErrNoRows then Halt(missing)
    else if lookup.Err? then Halt(InternalServerError)
    else Next
  }
}
