/** Sequences of requests against MoviesController and ActorsController and
    what they do to the MovieActor table. */
module Scenarios {
  import opened Http
  import opened Associations
  import opened MoviesApi
  import opened ActorsApi

  /** Adding the same actor to the same movie twice: the second request is
      rejected and the table holds the pair once. */
  method AddActorTwice(c: MoviesController, id: int, actorId: int) returns (first: Response<Message>, second: Response<Message>)
    requires c.Valid()
    requires id in c.movies.rows && actorId in c.actors.rows
    modifies c.movieActors
    ensures second == BadRequest
    ensures Pair(id, actorId) in old(c.movieActors.rows) ==> first == BadRequest && c.movieActors.rows == old(c.movieActors.rows)
    ensures Pair(id, actorId) !in old(c.movieActors.rows) ==>
              first == Ok(()) && c.movieActors.rows == Inserted(old(c.movieActors.rows), Pair(id, actorId))
    ensures AtMostOnce(old(c.movieActors.rows)) ==> AtMostOnce(c.movieActors.rows)
  {
    first := c.AddActorToMovie(id, actorId);
    second := c.AddActorToMovie(id, actorId);
  }

  /** Adding an actor the movie did not have and then removing it again leaves
      the table as it was, and both requests succeed. */
  method AddThenDeleteActor(c: MoviesController, id: int, actorId: int) returns (added: Response<Message>, deleted: Response<Message>)
    requires c.Valid()
    requires id in c.movies.rows && actorId in c.actors.rows
    requires Pair(id, actorId) !in c.movieActors.rows
    modifies c.movieActors
    ensures added == Ok(()) && deleted == Ok(())
    ensures c.movieActors.rows == old(c.movieActors.rows)
  {
    added := c.AddActorToMovie(id, actorId);
    deleted := c.DeleteActorFromMovie(id, actorId);
    RemoveUndoesInsert(old(c.movieActors.rows), Pair(id, actorId));
  }

  /** Through either controller, adding an actor to a movie stores the same row. */
  method AddFromEitherSide(m: MoviesController, a: ActorsController, movieId: int, actorId: int)
    returns (viaMovie: Response<Message>, viaActor: Response<Message>)
    requires m.Valid() && a.Valid()
    requires m.movieActors == a.movieActors && m.movies == a.movies && m.actors == a.actors
    requires movieId in m.movies.rows && actorId in m.actors.rows
    requires Pair(movieId, actorId) !in m.movieActors.rows
    modifies m.movieActors
    ensures viaMovie == Ok(()) && viaActor == BadRequest
    ensures m.movieActors.rows == Inserted(old(m.movieActors.rows), Pair(movieId, actorId))
  {
    viaMovie := m.AddActorToMovie(movieId, actorId);
    viaActor := a.AddMovieToActor(actorId, movieId);
  }
}
