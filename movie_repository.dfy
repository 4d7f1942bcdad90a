/** MovieRepository: the movie-details fold over the join result set, and the
    Movie table (create, look up, update, delete). The MovieActor and
    MovieGenre operations of the same repository are AssociationTable. */
module MovieRepo {
  import opened Wrappers
  import opened Linq
  import opened Models

  // ---------------------------------------------------------------------------
  // GetMovie: assembling one Movie from the rows of spMovie_GetMovieDetails
  // ---------------------------------------------------------------------------

  /** Dapper's per-row map: a fresh Movie from the row's movie columns whose
      empty child lists each receive the row's (possibly null) child. */
  function MapRow(row: JoinRow): Movie
  {
    Movie(row.movie, [row.genre], [row.actor], [row.award])
  }

  function MovieId(m: Movie): int { m.record.id }
  function GenresOf(m: Movie): seq<Option<Genre>> { m.genres }
  function ActorsOf(m: Movie): seq<Option<Actor>> { m.actors }
  function AwardsOf(m: Movie): seq<Option<Award>> { m.awards }

  function RowMovieId(row: JoinRow): int { row.movie.id }
  function RowGenre(row: JoinRow): Option<Genre> { row.genre }
  function RowActor(row: JoinRow): Option<Actor> { row.actor }
  function RowAward(row: JoinRow): Option<Award> { row.award }

  /** The rows of the result set that carry movie id `id`, in order. */
  function RowsOf(rows: seq<JoinRow>, id: int): seq<JoinRow>
  {
    WithKey(rows, RowMovieId, id)
  }

  /** GetMovie: map every row, group by movie id, and return the first group's
      first movie with each child list replaced by the concatenation of the
      group's child lists. First() on no groups throws. */
  function GetMovie(rows: seq<JoinRow>): (r: Result<Movie, Fault>)
    ensures r.Failure? <==> rows == []
    ensures r.Failure? ==> r.error == SequenceContainsNoElements
    ensures r.Success? ==> r.value.record == rows[0].movie
  {
    var movies := Select(rows, MapRow);
    var groups := GroupBy(movies, MovieId);
    if groups == [] then Failure(SequenceContainsNoElements)
    else
      var mg := groups[0];
      var first := mg[0];
      Success(first.(genres := SelectMany(mg, GenresOf),
                     actors := SelectMany(mg, ActorsOf),
                     awards := SelectMany(mg, AwardsOf)))
  }

  /** Each child list of the result holds, in order, the child of every row of
      the first row's movie: nulls and repeats are kept, so every list is as
      long as that movie's row group. */
  lemma GetMovieChildLists(rows: seq<JoinRow>)
    requires rows != []
    ensures var group := RowsOf(rows, rows[0].movie.id);
            var m := GetMovie(rows).value;
            && m.genres == Select(group, RowGenre)
            && m.actors == Select(group, RowActor)
            && m.awards == Select(group, RowAward)
            && |m.genres| == |m.actors| == |m.awards| == |group|
  {
    var id := rows[0].movie.id;
    var movies := Select(rows, MapRow);
    assert MovieId(movies[0]) == id;
    WithKeySelect(rows, MapRow, MovieId, RowMovieId, id);
    var group := RowsOf(rows, id);
    SelectManyOfSingletons(group, MapRow, GenresOf, RowGenre);
    SelectManyOfSingletons(group, MapRow, ActorsOf, RowActor);
    SelectManyOfSingletons(group, MapRow, AwardsOf, RowAward);
  }

  /** Rows of any other movie contribute nothing: the result is the one
      computed from the first row's movie group alone. */
  lemma GetMovieIgnoresOtherMovies(rows: seq<JoinRow>)
    requires rows != []
    ensures GetMovie(rows) == GetMovie(RowsOf(rows, rows[0].movie.id))
  {
    var id := rows[0].movie.id;
    var group := RowsOf(rows, id);
    assert group[0] == rows[0];
    WithKeyAll(group, RowMovieId, id);
    GetMovieChildLists(rows);
    GetMovieChildLists(group);
  }

  // ---------------------------------------------------------------------------
  // The Movie table
  // ---------------------------------------------------------------------------

  /** The row `UPDATE Movie SET ReleaseDate = @ReleaseDate, Rate = @Rate`
      leaves behind: only those two columns come from the argument. */
  function UpdatedMovie(stored: MovieRecord, movie: MovieRecord): (r: MovieRecord)
    ensures r.id == stored.id && r.title == stored.title
    ensures r.director == stored.director && r.duration == stored.duration
    ensures r.releaseDate == movie.releaseDate && r.rate == movie.rate
  {
    stored.(releaseDate := movie.releaseDate, rate := movie.rate)
  }

  class MovieRepository {
    /** The Movie table keyed by Id. */
    var rows: map<int, MovieRecord>
    /** The next value of the identity column; identities are never reused. */
    var nextId: int

    ghost predicate Valid()
      reads this
    {
      forall id :: id in rows ==> rows[id].id == id && id < nextId
    }

    constructor ()
      ensures Valid() && rows == map[]
    {
      rows := map[];
      nextId := 1;
    }

    /** INSERT INTO Movie ...; SELECT SCOPE_IDENTITY(): stores the movie under a
        fresh identity and returns it. */
    method Create(movie: MovieRecord) returns (id: int)
      requires Valid()
      modifies this
      ensures Valid()
      ensures id !in old(rows)
      ensures rows == old(rows)[id := movie.(id := id)]
    {
      id := nextId;
      rows := rows[id := movie.(id := id)];
      nextId := nextId + 1;
    }

    /** GetMovieOnly: the movie row with that id, or null. */
    method GetMovieOnly(id: int) returns (movie: Option<MovieRecord>)
      ensures movie.Some? <==> id in rows
      ensures movie.Some? ==> movie.value == rows[id]
    {
      movie := if id in rows then Some(rows[id]) else None;
    }

    /** Update: rewrites ReleaseDate and Rate of the row whose Id is movie.id and
        nothing else; true iff one row was affected. */
    method Update(movie: MovieRecord) returns (ok: bool)
      requires Valid()
      modifies this
      ensures Valid() && nextId == old(nextId)
      ensures ok <==> movie.id in old(rows)
      ensures rows == if ok then old(rows)[movie.id := UpdatedMovie(old(rows)[movie.id], movie)] else old(rows)
    {
      var affected := if movie.id in rows then 1 else 0;
      if movie.id in rows {
        rows := rows[movie.id := UpdatedMovie(rows[movie.id], movie)];
      }
      ok := affected == 1;
    }

    /** Delete: removes the row with that id (no cascade to the join tables or
        awards); true iff one row was removed. */
    method Delete(id: int) returns (ok: bool)
      requires Valid()
      modifies this
      ensures Valid() && nextId == old(nextId)
      ensures ok <==> id in old(rows)
      ensures rows == old(rows) - {id}
    {
      var affected := if id in rows then 1 else 0;
      rows := rows - {id};
      ok := affected == 1;
    }
  }
}
