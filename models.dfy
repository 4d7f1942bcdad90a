/** The entity records of the catalogue, one per table row, and the row shape of
    the movie-details join. C# `string?` properties are Option<string>; a
    `DateTime` is kept as its tick count. Child lists of a Movie hold
    `Option`s because the join hands null children to them. */
module Models {
  import opened Wrappers

  datatype Date = Date(ticks: int)

  /** default(DateTime): what a DateTime property holds when nothing set it. */
  const DefaultDate := Date(0)

  /** A row of the Movie table. */
  datatype MovieRecord = MovieRecord(
    id: int,
    title: Option<string>,
    director: Option<string>,
    duration: int,
    releaseDate: Date,
    rate: int)

  datatype Genre = Genre(id: int, name: Option<string>)

  datatype Actor = Actor(id: int, name: Option<string>, gender: Option<string>, birthday: Date)

  /** An award belongs to exactly one movie, through MovieId. */
  datatype Award = Award(id: int, name: Option<string>, year: int, movieId: int)

  /** Movie with its three child lists, as the repository hands it to the service. */
  datatype Movie = Movie(
    record: MovieRecord,
    genres: seq<Option<Genre>>,
    actors: seq<Option<Actor>>,
    awards: seq<Option<Award>>)

  /** One row of the Movie x Genre x Actor x Award join: the movie columns and at
      most one child of each kind (absent where the outer join found none). */
  datatype JoinRow = JoinRow(
    movie: MovieRecord,
    genre: Option<Genre>,
    actor: Option<Actor>,
    award: Option<Award>)
}
