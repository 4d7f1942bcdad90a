/** AwardsController: the award endpoints. An award is created only for a movie
    that exists, and its MovieId is never rewritten afterwards. */
module AwardsApi {
  import opened Wrappers
  import opened Models
  import opened Http
  import opened MovieRepo
  import opened AwardRepo

  /** AwardCreationDto and AwardUpdateDto; Name is required. */
  datatype AwardCreationDto = AwardCreationDto(name: string, year: int, movieId: int)
  datatype AwardUpdateDto = AwardUpdateDto(name: string, year: int)

  class AwardsController {
    const awards: AwardRepository
    const movies: MovieRepository

    ghost predicate Valid()
      reads awards, movies
    {
      awards.Valid() && movies.Valid()
    }

    /** Every award names a movie that is in the Movie table. */
    ghost predicate AwardsReferenceMovies()
      reads awards, movies
    {
      forall id :: id in awards.rows ==> awards.rows[id].movieId in movies.rows
    }

    constructor (awards: AwardRepository, movies: MovieRepository)
      ensures this.awards == awards && this.movies == movies
    {
      this.awards := awards;
      this.movies := movies;
    }

    /** GET api/Awards/{id} */
    function GetAwardById(id: int): (r: Response<Award>)
      reads awards
      ensures r == NotFound(AwardEntity) <==> id !in awards.rows
      ensures r.Ok? <==> id in awards.rows
      ensures r.Ok? ==> r.body == awards.rows[id]
    {
      if id !in awards.rows then NotFound(AwardEntity) else Ok(awards.rows[id])
    }

    /** POST api/Awards: 404 unless the MovieId names a movie; otherwise the new
        award, under the id Create returned, for the requested movie. */
    method CreateAward(dto: AwardCreationDto) returns (r: Response<Award>)
      requires Valid()
      modifies awards
      ensures Valid()
      ensures r == NotFound(MovieEntity) <==> dto.movieId !in movies.rows
      ensures r.Created? <==> dto.movieId in movies.rows
      ensures r.Created? ==> r.id !in old(awards.rows) && r.body == Award(r.id, Some(dto.name), dto.year, dto.movieId)
      ensures r.Created? ==> awards.rows == old(awards.rows)[r.id := r.body]
      ensures !r.Created? ==> awards.rows == old(awards.rows)
      ensures old(AwardsReferenceMovies()) ==> AwardsReferenceMovies()
    {
      var movie := movies.GetMovieOnly(dto.movieId);
      if movie.None? {
        return NotFound(MovieEntity);
      }
      var id := awards.Create(Award(0, Some(dto.name), dto.year, dto.movieId));
      return Created(id, Award(id, Some(dto.name), dto.year, dto.movieId));
    }

    /** PUT api/Awards/{id}: the mapped Award has MovieId 0, but the repository
        never writes MovieId, so the award stays with its movie. */
    method UpdateAward(id: int, dto: AwardUpdateDto) returns (r: Response<Message>)
      requires Valid()
      modifies awards
      ensures Valid()
      ensures r == NotFound(AwardEntity) <==> id !in old(awards.rows)
      ensures r == Ok(()) <==> id in old(awards.rows)
      ensures r.Ok? ==> awards.rows == old(awards.rows)[id := Award(id, Some(dto.name), dto.year, old(awards.rows)[id].movieId)]
      ensures !r.Ok? ==> awards.rows == old(awards.rows)
      ensures old(AwardsReferenceMovies()) ==> AwardsReferenceMovies()
    {
      var checkAward := awards.GetAward(id);
      if checkAward.None? {
        return NotFound(AwardEntity);
      }
      var isAwardUpdated := awards.Update(Award(id, Some(dto.name), dto.year, 0));
      return Ok(());
    }

    /** DELETE api/Awards/{id} */
    method DeleteAward(id: int) returns (r: Response<Message>)
      requires Valid()
      modifies awards
      ensures Valid()
      ensures r == NotFound(AwardEntity) <==> id !in old(awards.rows)
      ensures r == Ok(()) <==> id in old(awards.rows)
      ensures awards.rows == old(awards.rows) - {id}
      ensures old(AwardsReferenceMovies()) ==> AwardsReferenceMovies()
    {
      var checkAward := awards.GetAward(id);
      if checkAward.None? {
        return NotFound(AwardEntity);
      }
      var isAwardDeleted := awards.Delete(id);
      return Ok(());
    }
  }
}
