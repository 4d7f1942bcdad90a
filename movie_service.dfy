/** MovieService: GetMovieById turns the assembled Movie into a MovieByIdDto whose
    child lists are the distinct names of the non-null children; UpdateMovie
    builds the partial record the repository's UPDATE reads. */
module MovieService {
  import opened Wrappers
  import opened Linq
  import opened Models
  import opened MovieRepo

  /** MovieByIdDto; ReleaseDate stays a Date (its "D" formatting is not modelled). */
  datatype MovieByIdDto = MovieByIdDto(
    id: int,
    title: Option<string>,
    director: Option<string>,
    duration: int,
    releaseDate: Date,
    rate: int,
    genres: seq<Option<string>>,
    actors: seq<Option<string>>,
    awards: seq<Option<string>>)

  /** MovieUpdateDto after ReleaseDate has been parsed. */
  datatype MovieUpdateDto = MovieUpdateDto(releaseDate: Date, rate: int)

  function GenreName(g: Genre): Option<string> { g.name }
  function ActorName(a: Actor): Option<string> { a.name }
  function AwardName(a: Award): Option<string> { a.name }

  /** `children.Where(x => x != null)`, then, if any are left,
      `.Select(x => x.Name).Distinct()`; otherwise the DTO's initial empty list. */
  function DistinctNames<C>(children: seq<Option<C>>, name: C -> Option<string>): (names: seq<Option<string>>)
    ensures NoDuplicates(names)
    ensures forall i :: 0 <= i < |children| && children[i].Some? ==> name(children[i].value) in names
    ensures forall n :: n in names ==>
              exists i :: 0 <= i < |children| && children[i].Some? && name(children[i].value) == n
    ensures names == [] <==> forall i :: 0 <= i < |children| ==> children[i].None?
  {
    var nonNull := Somes(children);
    if nonNull != [] then
      var all := Select(nonNull, name);
      assert forall i :: 0 <= i < |children| && children[i].Some? ==> name(children[i].value) in all by {
        forall i | 0 <= i < |children| && children[i].Some?
          ensures name(children[i].value) in all
        {
          SelectMember(nonNull, name, children[i].value);
        }
      }
      assert forall n :: n in all ==>
               exists i :: 0 <= i < |children| && children[i].Some? && name(children[i].value) == n by {
        forall n | n in all
          ensures exists i :: 0 <= i < |children| && children[i].Some? && name(children[i].value) == n
        {
          var k :| 0 <= k < |all| && all[k] == n;
          var c := nonNull[k];
          assert Some(c) in children;
          var i :| 0 <= i < |children| && children[i] == Some(c);
          assert children[i].Some? && name(children[i].value) == n;
        }
      }
      assert Some(nonNull[0]) in children;
      assert name(nonNull[0]) in all;
      Distinct(all)
    else
      assert forall i :: 0 <= i < |children| ==> children[i].None?;
      []
  }

  /** The DTO GetMovieById builds from an assembled movie. */
  function ToDto(m: Movie): (dto: MovieByIdDto)
    ensures dto.id == m.record.id && dto.title == m.record.title && dto.director == m.record.director
    ensures dto.duration == m.record.duration && dto.releaseDate == m.record.releaseDate && dto.rate == m.record.rate
    ensures dto.genres == DistinctNames(m.genres, GenreName)
    ensures dto.actors == DistinctNames(m.actors, ActorName)
    ensures dto.awards == DistinctNames(m.awards, AwardName)
  {
    MovieByIdDto(m.record.id, m.record.title, m.record.director, m.record.duration,
                 m.record.releaseDate, m.record.rate,
                 DistinctNames(m.genres, GenreName),
                 DistinctNames(m.actors, ActorName),
                 DistinctNames(m.awards, AwardName))
  }

  /** GetMovieById: null for a null movie, otherwise its DTO. */
  function GetMovieById(movie: Option<Movie>): (r: Option<MovieByIdDto>)
    ensures r.None? <==> movie.None?
    ensures r.Some? ==> r.value == ToDto(movie.value)
  {
    if movie.None? then None else Some(ToDto(movie.value))
  }

  /** The service call on the result set of spMovie_GetMovieDetails: the
      repository's fault propagates, a movie becomes its DTO. */
  function MovieDetails(rows: seq<JoinRow>): (r: Result<MovieByIdDto, Fault>)
    ensures r.Failure? <==> rows == []
    ensures r.Success? ==> r.value.id == rows[0].movie.id && r.value.rate == rows[0].movie.rate
    ensures r.Success? ==> r.value == ToDto(GetMovie(rows).value)
  {
    match GetMovie(rows)
    case Failure(e) => Failure(e)
    case Success(m) => Success(GetMovieById(Some(m)).value)
  }

  /** UpdateMovie: the record handed to the repository carries only the id, the
      release date and the rate; every other column holds its C# default. */
  function UpdateMovie(id: int, dto: MovieUpdateDto): (movie: MovieRecord)
    ensures movie.id == id && movie.releaseDate == dto.releaseDate && movie.rate == dto.rate
    ensures movie.title.None? && movie.director.None? && movie.duration == 0
  {
    MovieRecord(id, None, None, 0, dto.releaseDate, dto.rate)
  }

  /** Since the repository reads only ReleaseDate and Rate, the defaults in the
      partial record never reach the table: the stored title, director and
      duration survive an update through the service. */
  lemma UpdateMovieKeepsUnsentColumns(stored: MovieRecord, id: int, dto: MovieUpdateDto)
    ensures UpdatedMovie(stored, UpdateMovie(id, dto))
            == stored.(releaseDate := dto.releaseDate, rate := dto.rate)
  {
  }

  // ---------------------------------------------------------------------------
  // GetMovieById composed with GetMovie
  // ---------------------------------------------------------------------------

  /** Each DTO list holds exactly the distinct names of the non-null children
      of the first row's movie group, one per name. */
  lemma {:induction false} MovieDetailsNames(rows: seq<JoinRow>)
    requires rows != []
    ensures var group := RowsOf(rows, rows[0].movie.id);
            var dto := MovieDetails(rows).value;
            && dto.genres == DistinctNames(Select(group, RowGenre), GenreName)
            && dto.actors == DistinctNames(Select(group, RowActor), ActorName)
            && dto.awards == DistinctNames(Select(group, RowAward), AwardName)
  {
    GetMovieChildLists(rows);
  }

  /** A name occurs in DistinctNames of the rows' children iff some row
      carries a non-null child with that name. */
  lemma NamesOfRows<C>(group: seq<JoinRow>, child: JoinRow -> Option<C>, name: C -> Option<string>, n: Option<string>)
    ensures n in DistinctNames(Select(group, child), name) <==>
            exists r :: r in group && child(r).Some? && name(child(r).value) == n
  {
    var cs := Select(group, child);
    if n in DistinctNames(cs, name) {
      var i :| 0 <= i < |cs| && cs[i].Some? && name(cs[i].value) == n;
      assert group[i] in group && child(group[i]) == cs[i];
    }
    if exists r :: r in group && child(r).Some? && name(child(r).value) == n {
      var r :| r in group && child(r).Some? && name(child(r).value) == n;
      var i :| 0 <= i < |group| && group[i] == r;
      assert cs[i] == child(r);
    }
  }

  /** The rows of the first row's movie that carry a non-null child whose
      name is n, for the child selected by `child`. */
  predicate HasChildNamed<C>(rows: seq<JoinRow>, child: JoinRow -> Option<C>, name: C -> Option<string>, n: Option<string>)
  {
    rows != [] && exists r :: r in rows && r.movie.id == rows[0].movie.id && child(r).Some? && name(child(r).value) == n
  }

  /** A name occurs in the genre list iff some row of the movie carries a
      genre with that name; likewise for actors and awards. */
  lemma {:induction false} MovieDetailsNameSets(rows: seq<JoinRow>, n: Option<string>)
    requires rows != []
    ensures var dto := MovieDetails(rows).value;
            && (n in dto.genres <==> HasChildNamed(rows, RowGenre, GenreName, n))
            && (n in dto.actors <==> HasChildNamed(rows, RowActor, ActorName, n))
            && (n in dto.awards <==> HasChildNamed(rows, RowAward, AwardName, n))
  {
    var group := RowsOf(rows, rows[0].movie.id);
    MovieDetailsNames(rows);
    GroupHasChildNamed(rows, RowGenre, GenreName, n);
    GroupHasChildNamed(rows, RowActor, ActorName, n);
    GroupHasChildNamed(rows, RowAward, AwardName, n);
  }

  lemma GroupHasChildNamed<C>(rows: seq<JoinRow>, child: JoinRow -> Option<C>, name: C -> Option<string>, n: Option<string>)
    requires rows != []
    ensures n in DistinctNames(Select(RowsOf(rows, rows[0].movie.id), child), name) <==> HasChildNamed(rows, child, name, n)
  {
    var group := RowsOf(rows, rows[0].movie.id);
    NamesOfRows(group, child, name, n);
    if HasChildNamed(rows, child, name, n) {
      var r :| r in rows && r.movie.id == rows[0].movie.id && child(r).Some? && name(child(r).value) == n;
      assert RowMovieId(r) == rows[0].movie.id;
      assert r in group;
    }
  }

  /** Children whose names are all different keep one entry each: the list is
      as long as the number of non-null children. */
  lemma DistinctNamesOfDistinctNames<C>(children: seq<Option<C>>, name: C -> Option<string>)
    requires NoDuplicates(Select(Somes(children), name))
    ensures DistinctNames(children, name) == Select(Somes(children), name)
    ensures |DistinctNames(children, name)| == |Somes(children)|
  {
    if Somes(children) != [] {
      DistinctOfNoDuplicates(Select(Somes(children), name));
    }
  }

  /** Appending children that already occur leaves DistinctNames as it was. */
  lemma DistinctNamesAppendSeen<C>(a: seq<Option<C>>, b: seq<Option<C>>, name: C -> Option<string>)
    requires forall x :: x in b ==> x in a
    ensures DistinctNames(a + b, name) == DistinctNames(a, name)
  {
    SomesAppend(a, b);
    var sa, sb := Somes(a), Somes(b);
    forall y | y in sb ensures y in sa {
      assert Some(y) in a;
      var i :| 0 <= i < |a| && a[i] == Some(y);
    }
    if sa == [] {
      assert forall i :: 0 <= i < |a| ==> a[i].None?;
      forall j | 0 <= j < |a + b| ensures (a + b)[j].None? {
        if j >= |a| {
          assert b[j - |a|] in b;
          var i :| 0 <= i < |a| && a[i] == b[j - |a|];
        }
      }
    } else {
      SelectAppend(sa, sb, name);
      forall x | x in Select(sb, name) ensures x in Select(sa, name) {
        var k :| 0 <= k < |sb| && Select(sb, name)[k] == x;
        SelectMember(sa, name, sb[k]);
      }
      DistinctAppendSeen(Select(sa, name), Select(sb, name));
    }
  }

  /** The result does not depend on how often the cross join repeats a row:
      appending rows that already occur changes nothing. In particular the
      DTO of `rows + rows` is the DTO of `rows`. */
  lemma {:induction false} RepeatedRowsCollapse(rows: seq<JoinRow>, extra: seq<JoinRow>)
    requires rows != []
    requires forall r :: r in extra ==> r in rows
    ensures MovieDetails(rows + extra) == MovieDetails(rows)
  {
    var id := rows[0].movie.id;
    var all := rows + extra;
    assert all[0] == rows[0];
    MovieDetailsNames(rows);
    MovieDetailsNames(all);
    WithKeyAppend(rows, extra, RowMovieId, id);
    var g, e := RowsOf(rows, id), RowsOf(extra, id);
    forall r | r in e ensures r in g {
    }
    ChildrenOfRepeatedRows(g, e, RowGenre);
    ChildrenOfRepeatedRows(g, e, RowActor);
    ChildrenOfRepeatedRows(g, e, RowAward);
    DistinctNamesAppendSeen(Select(g, RowGenre), Select(e, RowGenre), GenreName);
    DistinctNamesAppendSeen(Select(g, RowActor), Select(e, RowActor), ActorName);
    DistinctNamesAppendSeen(Select(g, RowAward), Select(e, RowAward), AwardName);
  }

  lemma ChildrenOfRepeatedRows<C>(g: seq<JoinRow>, e: seq<JoinRow>, child: JoinRow -> C)
    requires forall r :: r in e ==> r in g
    ensures Select(g + e, child) == Select(g, child) + Select(e, child)
    ensures forall x :: x in Select(e, child) ==> x in Select(g, child)
  {
    SelectAppend(g, e, child);
    forall x | x in Select(e, child) ensures x in Select(g, child) {
      var k :| 0 <= k < |e| && Select(e, child)[k] == x;
      SelectMember(g, child, e[k]);
    }
  }
}

module MovieServiceExample {
  import opened Wrappers
  import opened Linq
  import opened Models
  import opened MovieRepo
  import opened MovieService

  const heat := MovieRecord(1, Some("Heat"), Some("Mann"), 170, Date(0), 90)
  const crime := Genre(3, Some("Crime"))
  const pacino := Actor(5, Some("Pacino"), None, Date(0))
  const bestFilm96 := Award(7, Some("Best Film"), 1996, 1)
  const bestFilm97 := Award(8, Some("Best Film"), 1997, 1)

  /** Two different awards named "Best Film", crossed with one genre and one
      actor: the result set holds two rows. */
  function HeatRows(): seq<JoinRow>
  {
    [JoinRow(heat, Some(crime), Some(pacino), Some(bestFilm96)),
     JoinRow(heat, Some(crime), Some(pacino), Some(bestFilm97))]
  }

  /** The DTO lists each genre, actor and award name once. */
  lemma SameNamedAwardsCollapse()
    ensures MovieDetails(HeatRows()).value.genres == [Some("Crime")]
    ensures MovieDetails(HeatRows()).value.actors == [Some("Pacino")]
    ensures MovieDetails(HeatRows()).value.awards == [Some("Best Film")]
  {
    var rows := HeatRows();
    MovieDetailsNames(rows);
    WithKeyAll(rows, RowMovieId, 1);
    var g, a := Some(crime), Some(pacino);
    SelectOfTwo(rows[0], rows[1], RowGenre);
    SelectOfTwo(rows[0], rows[1], RowActor);
    SelectOfTwo(rows[0], rows[1], RowAward);
    NamesOfTwo(g, g, GenreName);
    NamesOfTwo(a, a, ActorName);
    NamesOfTwo(Some(bestFilm96), Some(bestFilm97), AwardName);
  }

  lemma SelectOfTwo<T, U>(x: T, y: T, f: T -> U)
    ensures Select([x, y], f) == [f(x), f(y)]
  {
  }

  /** Two non-null children with the same name give that name once. */
  lemma NamesOfTwo<C>(x: Option<C>, y: Option<C>, name: C -> Option<string>)
    requires x.Some? && y.Some? && name(x.value) == name(y.value)
    ensures DistinctNames([x, y], name) == [name(x.value)]
  {
    assert Somes([x, y]) == [x.value, y.value] by {
      assert [x, y][1..] == [y];
      assert Somes([y]) == [y.value] by {
        assert [y][1..] == [];
      }
    }
    var ns := Select([x.value, y.value], name);
    assert ns == [name(x.value), name(x.value)];
    assert ns[..1] == [name(x.value)];
    assert Distinct(ns[..1]) == [name(x.value)] by {
      assert ns[..1][..0] == [];
    }
  }
}
