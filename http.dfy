/** The outcomes the controllers produce, without routes, message texts or
    serialisation: only which IActionResult an endpoint returns and, where it
    carries one, its payload. */
module Http {

  /** Which entity a 404 reports as missing. */
  datatype Entity = MovieEntity | ActorEntity | GenreEntity | AwardEntity

  /** Ok(body) is 200, Created(id, body) is 201 CreatedAtRoute with the new id,
      NoContent is 204, BadRequest is 400, NotFound(e) is 404 naming e, and
      ServerError is the 500 of the catch block. */
  datatype Response<+T> =
    | Ok(body: T)
    | Created(id: int, body: T)
    | NoContent
    | BadRequest
    | NotFound(entity: Entity)
    | ServerError

  /** A response that carries only a message. */
  type Message = ()
}
