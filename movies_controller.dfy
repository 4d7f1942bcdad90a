/** MoviesController: the movie endpoints and the movie side of the two join
    tables. Every mutating endpoint runs its existence checks in a fixed order
    and touches the store only when all of them pass. */
module MoviesApi {
  import opened Wrappers
  import opened Models
  import opened Http
  import opened Associations
  import opened MovieRepo
  import opened GenreRepo
  import opened ActorRepo
  import opened AwardRepo
  import opened MovieService

  class MoviesController {
    const movies: MovieRepository
    const genres: GenreRepository
    const actors: ActorRepository
    const awards: AwardRepository
    const movieActors: AssociationTable
    const movieGenres: AssociationTable

    ghost predicate Valid()
      reads movies, genres, actors, awards, movieActors, movieGenres
    {
      && movies.Valid() && genres.Valid() && actors.Valid() && awards.Valid()
      && movieActors.relation == MovieActor && movieGenres.relation == MovieGenre
      && movieActors != movieGenres
    }

    constructor (movies: MovieRepository, genres: GenreRepository, actors: ActorRepository,
                 awards: AwardRepository, movieActors: AssociationTable, movieGenres: AssociationTable)
      ensures this.movies == movies && this.genres == genres && this.actors == actors
      ensures this.awards == awards && this.movieActors == movieActors && this.movieGenres == movieGenres
    {
      this.movies := movies;
      this.genres := genres;
      this.actors := actors;
      this.awards := awards;
      this.movieActors := movieActors;
      this.movieGenres := movieGenres;
    }

    /** GET api/Movies/{id}: 404 when the movie row is absent; otherwise the
        details assembled from `rows`, the result set of spMovie_GetMovieDetails
        for that id. First() on an empty result set throws, which the catch
        turns into 500. */
    function GetMovieById(id: int, rows: seq<JoinRow>): (r: Response<MovieByIdDto>)
      reads movies
      ensures r == NotFound(MovieEntity) <==> id !in movies.rows
      ensures r == ServerError <==> id in movies.rows && rows == []
      ensures r.Ok? <==> id in movies.rows && rows != []
      ensures r.Ok? ==> r.body.id == rows[0].movie.id
      ensures r.Ok? ==> r.body == MovieDetails(rows).value
    {
      if id !in movies.rows then NotFound(MovieEntity)
      else match MovieDetails(rows)
        case Failure(_) => ServerError
        case Success(dto) => Ok(dto)
    }

    /** GET api/Movies/{id}/genres, given the genres spGenre_GetAllByMovieId returns. */
    function GetMovieGenres(id: int, genresOfMovie: seq<Genre>): (r: Response<seq<Genre>>)
      reads movies
      ensures r == NotFound(MovieEntity) <==> id !in movies.rows
      ensures r == NoContent <==> id in movies.rows && genresOfMovie == []
      ensures r.Ok? <==> id in movies.rows && genresOfMovie != []
      ensures r.Ok? ==> r.body == genresOfMovie
    {
      if id !in movies.rows then NotFound(MovieEntity)
      else if genresOfMovie == [] then NoContent
      else Ok(genresOfMovie)
    }

    /** GET api/Movies/{id}/actors, given the actors spActor_GetAllByMovieId returns. */
    function GetMovieActors(id: int, actorsOfMovie: seq<Actor>): (r: Response<seq<Actor>>)
      reads movies
      ensures r == NotFound(MovieEntity) <==> id !in movies.rows
      ensures r == NoContent <==> id in movies.rows && actorsOfMovie == []
      ensures r.Ok? <==> id in movies.rows && actorsOfMovie != []
      ensures r.Ok? ==> r.body == actorsOfMovie
    {
      if id !in movies.rows then NotFound(MovieEntity)
      else if actorsOfMovie == [] then NoContent
      else Ok(actorsOfMovie)
    }

    /** GET api/Movies/{id}/awards: the movie's awards, read from the Award table. */
    function GetMovieAwards(id: int): (r: Response<set<Award>>)
      requires awards.Valid()
      reads movies, awards
      ensures r == NotFound(MovieEntity) <==> id !in movies.rows
      ensures r == NoContent <==> id in movies.rows && awards.ByMovie(id) == {}
      ensures r.Ok? <==> id in movies.rows && awards.ByMovie(id) != {}
      ensures r.Ok? ==> id in movies.rows && r.body == awards.ByMovie(id)
    {
      if id !in movies.rows then NotFound(MovieEntity)
      else
        var found := awards.ByMovie(id);
        if found == {} then NoContent else Ok(found)
    }

    /** PUT api/Movies/{id}/actors/{actorId}. */
    method AddActorToMovie(id: int, actorId: int) returns (r: Response<Message>)
      requires Valid()
      modifies movieActors
      ensures Valid()
      ensures id !in movies.rows ==> r == NotFound(MovieEntity)
      ensures id in movies.rows && actorId !in actors.rows ==> r == NotFound(ActorEntity)
      ensures id in movies.rows && actorId in actors.rows && Pair(id, actorId) in old(movieActors.rows) ==> r == BadRequest
      ensures id in movies.rows && actorId in actors.rows && Pair(id, actorId) !in old(movieActors.rows) ==> r == Ok(())
      ensures r.Ok? ==> movieActors.rows == Inserted(old(movieActors.rows), Pair(id, actorId))
      ensures !r.Ok? ==> movieActors.rows == old(movieActors.rows)
      ensures AtMostOnce(old(movieActors.rows)) ==> AtMostOnce(movieActors.rows)
    {
      var movie := movies.GetMovieOnly(id);
      if movie.None? {
        return NotFound(MovieEntity);
      }
      var actor := actors.GetActor(actorId);
      if actor.None? {
        return NotFound(ActorEntity);
      }
      var present := movieActors.Contains(id, actorId);
      if present {
        return BadRequest;
      }
      ghost var before := movieActors.rows;
      var isComplete := movieActors.Add(id, actorId);
      if AtMostOnce(before) {
        InsertAbsentKeepsAtMostOnce(before, Pair(id, actorId));
      }
      return Ok(());
    }

    /** PUT api/Movies/{id}/genres/{genreId}. */
    method AddGenreToMovie(id: int, genreId: int) returns (r: Response<Message>)
      requires Valid()
      modifies movieGenres
      ensures Valid()
      ensures id !in movies.rows ==> r == NotFound(MovieEntity)
      ensures id in movies.rows && genreId !in genres.rows ==> r == NotFound(GenreEntity)
      ensures id in movies.rows && genreId in genres.rows && Pair(id, genreId) in old(movieGenres.rows) ==> r == BadRequest
      ensures id in movies.rows && genreId in genres.rows && Pair(id, genreId) !in old(movieGenres.rows) ==> r == Ok(())
      ensures r.Ok? ==> movieGenres.rows == Inserted(old(movieGenres.rows), Pair(id, genreId))
      ensures !r.Ok? ==> movieGenres.rows == old(movieGenres.rows)
      ensures AtMostOnce(old(movieGenres.rows)) ==> AtMostOnce(movieGenres.rows)
    {
      var movie := movies.GetMovieOnly(id);
      if movie.None? {
        return NotFound(MovieEntity);
      }
      var genre := genres.GetGenre(genreId);
      if genre.None? {
        return NotFound(GenreEntity);
      }
      var present := movieGenres.Contains(id, genreId);
      if present {
        return BadRequest;
      }
      ghost var before := movieGenres.rows;
      var isComplete := movieGenres.Add(id, genreId);
      if AtMostOnce(before) {
        InsertAbsentKeepsAtMostOnce(before, Pair(id, genreId));
      }
      return Ok(());
    }

    /** PUT api/Movies/{id}: only the release date and the rate reach the table. */
    method UpdateMovie(id: int, dto: MovieUpdateDto) returns (r: Response<Message>)
      requires Valid()
      modifies movies
      ensures Valid()
      ensures r == NotFound(MovieEntity) <==> id !in old(movies.rows)
      ensures r == Ok(()) <==> id in old(movies.rows)
      ensures r.Ok? ==> movies.rows == old(movies.rows)[id := old(movies.rows)[id].(releaseDate := dto.releaseDate, rate := dto.rate)]
      ensures !r.Ok? ==> movies.rows == old(movies.rows)
    {
      var checkMovie := movies.GetMovieOnly(id);
      if checkMovie.None? {
        return NotFound(MovieEntity);
      }
      ghost var stored := movies.rows[id];
      var isMovieUpdated := movies.Update(MovieService.UpdateMovie(id, dto));
      UpdateMovieKeepsUnsentColumns(stored, id, dto);
      return Ok(());
    }

    /** DELETE api/Movies/{id}: the join tables and awards are left as they are. */
    method DeleteMovie(id: int) returns (r: Response<Message>)
      requires Valid()
      modifies movies
      ensures Valid()
      ensures r == NotFound(MovieEntity) <==> id !in old(movies.rows)
      ensures r == Ok(()) <==> id in old(movies.rows)
      ensures movies.rows == old(movies.rows) - {id}
    {
      var checkMovie := movies.GetMovieOnly(id);
      if checkMovie.None? {
        return NotFound(MovieEntity);
      }
      var isMovieDeleted := movies.Delete(id);
      return Ok(());
    }

    /** DELETE api/Movies/{id}/genres/{genreId}. */
    method DeleteGenreFromMovie(id: int, genreId: int) returns (r: Response<Message>)
      requires Valid()
      modifies movieGenres
      ensures Valid()
      ensures id !in movies.rows ==> r == NotFound(MovieEntity)
      ensures id in movies.rows && genreId !in genres.rows ==> r == NotFound(GenreEntity)
      ensures id in movies.rows && genreId in genres.rows && Pair(id, genreId) !in old(movieGenres.rows) ==> r == BadRequest
      ensures id in movies.rows && genreId in genres.rows && Pair(id, genreId) in old(movieGenres.rows) ==> r == Ok(())
      ensures r.Ok? ==> movieGenres.rows == Removed(old(movieGenres.rows), Pair(id, genreId))
      ensures !r.Ok? ==> movieGenres.rows == old(movieGenres.rows)
      ensures AtMostOnce(old(movieGenres.rows)) ==> AtMostOnce(movieGenres.rows)
    {
      var movie := movies.GetMovieOnly(id);
      if movie.None? {
        return NotFound(MovieEntity);
      }
      var genre := genres.GetGenre(genreId);
      if genre.None? {
        return NotFound(GenreEntity);
      }
      var present := movieGenres.Contains(id, genreId);
      if !present {
        return BadRequest;
      }
      ghost var before := movieGenres.rows;
      var isDeleted := movieGenres.Remove(id, genreId);
      if AtMostOnce(before) {
        RemoveKeepsAtMostOnce(before, Pair(id, genreId));
      }
      return Ok(());
    }

    /** DELETE api/Movies/{id}/actors/{actorId}. */
    method DeleteActorFromMovie(id: int, actorId: int) returns (r: Response<Message>)
      requires Valid()
      modifies movieActors
      ensures Valid()
      ensures id !in movies.rows ==> r == NotFound(MovieEntity)
      ensures id in movies.rows && actorId !in actors.rows ==> r == NotFound(ActorEntity)
      ensures id in movies.rows && actorId in actors.rows && Pair(id, actorId) !in old(movieActors.rows) ==> r == BadRequest
      ensures id in movies.rows && actorId in actors.rows && Pair(id, actorId) in old(movieActors.rows) ==> r == Ok(())
      ensures r.Ok? ==> movieActors.rows == Removed(old(movieActors.rows), Pair(id, actorId))
      ensures !r.Ok? ==> movieActors.rows == old(movieActors.rows)
      ensures AtMostOnce(old(movieActors.rows)) ==> AtMostOnce(movieActors.rows)
    {
      var movie := movies.GetMovieOnly(id);
      if movie.None? {
        return NotFound(MovieEntity);
      }
      var actor := actors.GetActor(actorId);
      if actor.None? {
        return NotFound(ActorEntity);
      }
      var present := movieActors.Contains(id, actorId);
      if !present {
        return BadRequest;
      }
      ghost var before := movieActors.rows;
      var isDeleted := movieActors.Remove(id, actorId);
      if AtMostOnce(before) {
        RemoveKeepsAtMostOnce(before, Pair(id, actorId));
      }
      return Ok(());
    }
  }
}
