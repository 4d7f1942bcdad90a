/** ActorsController: the actor endpoints and the actor side of MovieActor.
    Its association endpoints look the actor up before the movie. */
module ActorsApi {
  import opened Wrappers
  import opened Models
  import opened Http
  import opened Associations
  import opened MovieRepo
  import opened ActorRepo

  /** ActorUpdateDto; Name is required, so model binding never passes null. */
  datatype ActorUpdateDto = ActorUpdateDto(name: string)

  class ActorsController {
    const actors: ActorRepository
    const movies: MovieRepository
    const movieActors: AssociationTable

    ghost predicate Valid()
      reads actors, movies, movieActors
    {
      actors.Valid() && movies.Valid() && movieActors.relation == MovieActor
    }

    constructor (actors: ActorRepository, movies: MovieRepository, movieActors: AssociationTable)
      ensures this.actors == actors && this.movies == movies && this.movieActors == movieActors
    {
      this.actors := actors;
      this.movies := movies;
      this.movieActors := movieActors;
    }

    /** GET api/Actors/{id} */
    function GetActorById(id: int): (r: Response<Actor>)
      reads actors
      ensures r == NotFound(ActorEntity) <==> id !in actors.rows
      ensures r.Ok? <==> id in actors.rows
      ensures r.Ok? ==> r.body == actors.rows[id]
    {
      if id !in actors.rows then NotFound(ActorEntity) else Ok(actors.rows[id])
    }

    /** GET api/Actors/{id}/movies, given the movies spMovie_GetAllByActorId returns. */
    function GetActorMovies(id: int, moviesOfActor: seq<MovieRecord>): (r: Response<seq<MovieRecord>>)
      reads actors
      ensures r == NotFound(ActorEntity) <==> id !in actors.rows
      ensures r == NoContent <==> id in actors.rows && moviesOfActor == []
      ensures r.Ok? <==> id in actors.rows && moviesOfActor != []
      ensures r.Ok? ==> r.body == moviesOfActor
    {
      if id !in actors.rows then NotFound(ActorEntity)
      else if moviesOfActor == [] then NoContent
      else Ok(moviesOfActor)
    }

    /** PUT api/Actors/{id}/movies/{movieId}: stores the pair (movieId, id), the
        same row MoviesController.AddActorToMovie(movieId, id) stores. */
    method AddMovieToActor(id: int, movieId: int) returns (r: Response<Message>)
      requires Valid()
      modifies movieActors
      ensures Valid()
      ensures id !in actors.rows ==> r == NotFound(ActorEntity)
      ensures id in actors.rows && movieId !in movies.rows ==> r == NotFound(MovieEntity)
      ensures id in actors.rows && movieId in movies.rows && Pair(movieId, id) in old(movieActors.rows) ==> r == BadRequest
      ensures id in actors.rows && movieId in movies.rows && Pair(movieId, id) !in old(movieActors.rows) ==> r == Ok(())
      ensures r.Ok? ==> movieActors.rows == Inserted(old(movieActors.rows), Pair(movieId, id))
      ensures !r.Ok? ==> movieActors.rows == old(movieActors.rows)
      ensures AtMostOnce(old(movieActors.rows)) ==> AtMostOnce(movieActors.rows)
    {
      var actor := actors.GetActor(id);
      if actor.None? {
        return NotFound(ActorEntity);
      }
      var movie := movies.GetMovieOnly(movieId);
      if movie.None? {
        return NotFound(MovieEntity);
      }
      var present := movieActors.Contains(movieId, id);
      if present {
        return BadRequest;
      }
      ghost var before := movieActors.rows;
      var isComplete := movieActors.Add(movieId, id);
      if AtMostOnce(before) {
        InsertAbsentKeepsAtMostOnce(before, Pair(movieId, id));
      }
      return Ok(());
    }

    /** PUT api/Actors/{id}: the mapped Actor carries only the new name, and the
        repository writes only Name, so gender and birthday keep their values. */
    method UpdateActor(id: int, dto: ActorUpdateDto) returns (r: Response<Message>)
      requires Valid()
      modifies actors
      ensures Valid()
      ensures r == NotFound(ActorEntity) <==> id !in old(actors.rows)
      ensures r == Ok(()) <==> id in old(actors.rows)
      ensures r.Ok? ==> actors.rows == old(actors.rows)[id := old(actors.rows)[id].(name := Some(dto.name))]
      ensures !r.Ok? ==> actors.rows == old(actors.rows)
    {
      var checkActor := actors.GetActor(id);
      if checkActor.None? {
        return NotFound(ActorEntity);
      }
      var isActorUpdated := actors.Update(Actor(id, Some(dto.name), None, DefaultDate));
      return Ok(());
    }

    /** DELETE api/Actors/{id}: MovieActor rows of the actor are left as they are. */
    method DeleteActor(id: int) returns (r: Response<Message>)
      requires Valid()
      modifies actors
      ensures Valid()
      ensures r == NotFound(ActorEntity) <==> id !in old(actors.rows)
      ensures r == Ok(()) <==> id in old(actors.rows)
      ensures actors.rows == old(actors.rows) - {id}
    {
      var checkActor := actors.GetActor(id);
      if checkActor.None? {
        return NotFound(ActorEntity);
      }
      var isActorDeleted := actors.Delete(id);
      return Ok(());
    }

    /** DELETE api/Actors/{id}/movies/{movieId} */
    method DeleteMovieFromActor(id: int, movieId: int) returns (r: Response<Message>)
      requires Valid()
      modifies movieActors
      ensures Valid()
      ensures id !in actors.rows ==> r == NotFound(ActorEntity)
      ensures id in actors.rows && movieId !in movies.rows ==> r == NotFound(MovieEntity)
      ensures id in actors.rows && movieId in movies.rows && Pair(movieId, id) !in old(movieActors.rows) ==> r == BadRequest
      ensures id in actors.rows && movieId in movies.rows && Pair(movieId, id) in old(movieActors.rows) ==> r == Ok(())
      ensures r.Ok? ==> movieActors.rows == Removed(old(movieActors.rows), Pair(movieId, id))
      ensures !r.Ok? ==> movieActors.rows == old(movieActors.rows)
      ensures AtMostOnce(old(movieActors.rows)) ==> AtMostOnce(movieActors.rows)
    {
      var actor := actors.GetActor(id);
      if actor.None? {
        return NotFound(ActorEntity);
      }
      var movie := movies.GetMovieOnly(movieId);
      if movie.None? {
        return NotFound(MovieEntity);
      }
      var present := movieActors.Contains(movieId, id);
      if !present {
        return BadRequest;
      }
      ghost var before := movieActors.rows;
      var isDeleted := movieActors.Remove(movieId, id);
      if AtMostOnce(before) {
        RemoveKeepsAtMostOnce(before, Pair(movieId, id));
      }
      return Ok(());
    }
  }
}
