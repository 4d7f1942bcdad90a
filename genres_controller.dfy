/** GenresController: the genre endpoints and the genre side of MovieGenre.
    The by-name lookups in CreateGenre and UpdateGenre are the only thing that
    keeps genre names unique. */
module GenresApi {
  import opened Wrappers
  import opened Models
  import opened Http
  import opened Associations
  import opened MovieRepo
  import opened GenreRepo

  /** GenreCreationDto / GenreUpdateDto: a required name. */
  datatype GenreDto = GenreDto(name: string)

  class GenresController {
    const genres: GenreRepository
    const movies: MovieRepository
    const movieGenres: AssociationTable

    ghost predicate Valid()
      reads genres, movies, movieGenres
    {
      genres.Valid() && movies.Valid() && movieGenres.relation == MovieGenre
    }

    constructor (genres: GenreRepository, movies: MovieRepository, movieGenres: AssociationTable)
      ensures this.genres == genres && this.movies == movies && this.movieGenres == movieGenres
    {
      this.genres := genres;
      this.movies := movies;
      this.movieGenres := movieGenres;
    }

    /** GET api/Genres/{id} */
    function GetGenreById(id: int): (r: Response<Genre>)
      reads genres
      ensures r == NotFound(GenreEntity) <==> id !in genres.rows
      ensures r.Ok? <==> id in genres.rows
      ensures r.Ok? ==> r.body == genres.rows[id]
    {
      if id !in genres.rows then NotFound(GenreEntity) else Ok(genres.rows[id])
    }

    /** GET api/Genres/{id}/movies, given the movies spMovie_GetAllByGenreId returns. */
    function GetGenreMovies(id: int, moviesOfGenre: seq<MovieRecord>): (r: Response<seq<MovieRecord>>)
      reads genres
      ensures r == NotFound(GenreEntity) <==> id !in genres.rows
      ensures r == NoContent <==> id in genres.rows && moviesOfGenre == []
      ensures r.Ok? <==> id in genres.rows && moviesOfGenre != []
      ensures r.Ok? ==> r.body == moviesOfGenre
    {
      if id !in genres.rows then NotFound(GenreEntity)
      else if moviesOfGenre == [] then NoContent
      else Ok(moviesOfGenre)
    }

    /** POST api/Genres: 400 when a genre of that name exists; 500 when several
        do (QuerySingleOrDefault throws); otherwise the new genre. */
    method CreateGenre(dto: GenreDto) returns (r: Response<Genre>)
      requires Valid()
      modifies genres
      ensures Valid()
      ensures r == BadRequest <==> |old(genres.Named(dto.name))| == 1
      ensures r == ServerError <==> |old(genres.Named(dto.name))| > 1
      ensures r.Created? <==> old(genres.Named(dto.name)) == {}
      ensures r.Created? ==> r.id !in old(genres.rows) && r.body == Genre(r.id, Some(dto.name))
      ensures r.Created? ==> genres.rows == old(genres.rows)[r.id := r.body]
      ensures !r.Created? ==> genres.rows == old(genres.rows)
      ensures old(genres.UniqueNames()) ==> genres.UniqueNames()
    {
      var genreCheck := genres.GetGenreByName(dto.name);
      if genreCheck.Failure? {
        return ServerError;
      }
      if genreCheck.value.Some? {
        return BadRequest;
      }
      assert genres.Named(dto.name) == {};
      var id := genres.Create(Genre(0, Some(dto.name)));
      return Created(id, Genre(id, Some(dto.name)));
    }

    /** PUT api/Genres/{id}: 404 for an unknown id, then 400 if ANY genre has the
        requested name, the genre being renamed included. */
    method UpdateGenre(id: int, dto: GenreDto) returns (r: Response<Message>)
      requires Valid()
      modifies genres
      ensures Valid()
      ensures r == NotFound(GenreEntity) <==> id !in old(genres.rows)
      ensures id in old(genres.rows) ==>
                && (r == BadRequest <==> |old(genres.Named(dto.name))| == 1)
                && (r == ServerError <==> |old(genres.Named(dto.name))| > 1)
                && (r == Ok(()) <==> old(genres.Named(dto.name)) == {})
      ensures r.Ok? ==> genres.rows == old(genres.rows)[id := Genre(id, Some(dto.name))]
      ensures !r.Ok? ==> genres.rows == old(genres.rows)
      ensures old(genres.UniqueNames()) ==> genres.UniqueNames()
      ensures id in old(genres.rows) && old(genres.rows[id].name) == Some(dto.name) ==>
                r == BadRequest || r == ServerError
    {
      var checkGenre := genres.GetGenre(id);
      if checkGenre.None? {
        return NotFound(GenreEntity);
      }
      var genreCheck := genres.GetGenreByName(dto.name);
      if genreCheck.Failure? {
        return ServerError;
      }
      if genreCheck.value.Some? {
        return BadRequest;
      }
      var isGenreUpdated := genres.Update(Genre(id, Some(dto.name)));
      return Ok(());
    }

    /** DELETE api/Genres/{id}: MovieGenre rows of the genre are left as they are. */
    method DeleteGenre(id: int) returns (r: Response<Message>)
      requires Valid()
      modifies genres
      ensures Valid()
      ensures r == NotFound(GenreEntity) <==> id !in old(genres.rows)
      ensures r == Ok(()) <==> id in old(genres.rows)
      ensures genres.rows == old(genres.rows) - {id}
      ensures old(genres.UniqueNames()) ==> genres.UniqueNames()
    {
      var checkGenre := genres.GetGenre(id);
      if checkGenre.None? {
        return NotFound(GenreEntity);
      }
      var isGenreDeleted := genres.Delete(id);
      return Ok(());
    }

    /** PUT api/Genres/{id}/movies/{movieId}: the genre is looked up before the movie. */
    method AddMovieToGenre(movieId: int, id: int) returns (r: Response<Message>)
      requires Valid()
      modifies movieGenres
      ensures Valid()
      ensures id !in genres.rows ==> r == NotFound(GenreEntity)
      ensures id in genres.rows && movieId !in movies.rows ==> r == NotFound(MovieEntity)
      ensures id in genres.rows && movieId in movies.rows && Pair(movieId, id) in old(movieGenres.rows) ==> r == BadRequest
      ensures id in genres.rows && movieId in movies.rows && Pair(movieId, id) !in old(movieGenres.rows) ==> r == Ok(())
      ensures r.Ok? ==> movieGenres.rows == Inserted(old(movieGenres.rows), Pair(movieId, id))
      ensures !r.Ok? ==> movieGenres.rows == old(movieGenres.rows)
      ensures AtMostOnce(old(movieGenres.rows)) ==> AtMostOnce(movieGenres.rows)
    {
      var genre := genres.GetGenre(id);
      if genre.None? {
        return NotFound(GenreEntity);
      }
      var movie := movies.GetMovieOnly(movieId);
      if movie.None? {
        return NotFound(MovieEntity);
      }
      var present := movieGenres.Contains(movieId, id);
      if present {
        return BadRequest;
      }
      ghost var before := movieGenres.rows;
      var isComplete := movieGenres.Add(movieId, id);
      if AtMostOnce(before) {
        InsertAbsentKeepsAtMostOnce(before, Pair(movieId, id));
      }
      return Ok(());
    }

    /** DELETE api/Genres/{id}/movies/{movieId} */
    method DeleteMovieFromGenre(id: int, movieId: int) returns (r: Response<Message>)
      requires Valid()
      modifies movieGenres
      ensures Valid()
      ensures id !in genres.rows ==> r == NotFound(GenreEntity)
      ensures id in genres.rows && movieId !in movies.rows ==> r == NotFound(MovieEntity)
      ensures id in genres.rows && movieId in movies.rows && Pair(movieId, id) !in old(movieGenres.rows) ==> r == BadRequest
      ensures id in genres.rows && movieId in movies.rows && Pair(movieId, id) in old(movieGenres.rows) ==> r == Ok(())
      ensures r.Ok? ==> movieGenres.rows == Removed(old(movieGenres.rows), Pair(movieId, id))
      ensures !r.Ok? ==> movieGenres.rows == old(movieGenres.rows)
      ensures AtMostOnce(old(movieGenres.rows)) ==> AtMostOnce(movieGenres.rows)
    {
      var genre := genres.GetGenre(id);
      if genre.None? {
        return NotFound(GenreEntity);
      }
      var movie := movies.GetMovieOnly(movieId);
      if movie.None? {
        return NotFound(MovieEntity);
      }
      var present := movieGenres.Contains(movieId, id);
      if !present {
        return BadRequest;
      }
      ghost var before := movieGenres.rows;
      var isDeleted := movieGenres.Remove(movieId, id);
      if AtMostOnce(before) {
        RemoveKeepsAtMostOnce(before, Pair(movieId, id));
      }
      return Ok(());
    }
  }
}
