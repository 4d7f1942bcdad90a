/** The result set of the movie-details join for a movie with genres gs, actors
    cast and awards ws: one row per (genre, actor, award) combination, with a
    single null where a list is empty (the outer join's null-padded row). */
module CrossJoin {
  import opened Wrappers
  import opened Linq
  import opened Models
  import opened MovieRepo
  import opened MovieService

  /** A child list as the outer join sees it: its members, or one null. */
  function Padded<C(!new)>(xs: seq<C>): (ps: seq<Option<C>>)
    ensures ps != []
    ensures forall c :: Some(c) in ps <==> c in xs
  {
    if xs == [] then [None]
    else
      var ps := Select(xs, (c: C) => Some(c));
      assert forall c :: Some(c) in ps ==> c in xs by {
        forall c | Some(c) in ps ensures c in xs {
          var i :| 0 <= i < |ps| && ps[i] == Some(c);
        }
      }
      assert forall c :: c in xs ==> Some(c) in ps by {
        forall c | c in xs ensures Some(c) in ps {
          var i :| 0 <= i < |xs| && xs[i] == c;
          assert ps[i] == Some(c);
        }
      }
      ps
  }

  function AwardRows(m: MovieRecord, g: Option<Genre>, a: Option<Actor>, ws: seq<Option<Award>>): (rows: seq<JoinRow>)
    ensures forall r :: r in rows <==> r.movie == m && r.genre == g && r.actor == a && r.award in ws
  {
    if ws == [] then []
    else
      var rest := AwardRows(m, g, a, ws[1..]);
      assert forall w :: w in ws <==> w == ws[0] || w in ws[1..];
      [JoinRow(m, g, a, ws[0])] + rest
  }

  function ActorRows(m: MovieRecord, g: Option<Genre>, cast: seq<Option<Actor>>, ws: seq<Option<Award>>): (rows: seq<JoinRow>)
    ensures forall r :: r in rows <==> r.movie == m && r.genre == g && r.actor in cast && r.award in ws
  {
    if cast == [] then []
    else
      var rest := ActorRows(m, g, cast[1..], ws);
      assert forall a :: a in cast <==> a == cast[0] || a in cast[1..];
      AwardRows(m, g, cast[0], ws) + rest
  }

  function GenreRows(m: MovieRecord, gs: seq<Option<Genre>>, cast: seq<Option<Actor>>, ws: seq<Option<Award>>): (rows: seq<JoinRow>)
    ensures forall r :: r in rows <==> r.movie == m && r.genre in gs && r.actor in cast && r.award in ws
  {
    if gs == [] then []
    else
      var rest := GenreRows(m, gs[1..], cast, ws);
      assert forall g :: g in gs <==> g == gs[0] || g in gs[1..];
      ActorRows(m, gs[0], cast, ws) + rest
  }

  /** The rows spMovie_GetMovieDetails returns for the movie m. */
  function DetailRows(m: MovieRecord, gs: seq<Genre>, cast: seq<Actor>, ws: seq<Award>): (rows: seq<JoinRow>)
    ensures rows != [] && rows[0].movie == m
    ensures forall r :: r in rows <==>
              r.movie == m && r.genre in Padded(gs) && r.actor in Padded(cast) && r.award in Padded(ws)
  {
    var rows := GenreRows(m, Padded(gs), Padded(cast), Padded(ws));
    var r0 := JoinRow(m, Padded(gs)[0], Padded(cast)[0], Padded(ws)[0]);
    assert r0 in rows;
    rows
  }

  /** Every genre of the movie shows up in some row, and every non-null genre of a
      row is one of the movie's genres. */
  lemma DetailRowsGenres(m: MovieRecord, gs: seq<Genre>, cast: seq<Actor>, ws: seq<Award>, n: Option<string>)
    ensures var rows := DetailRows(m, gs, cast, ws);
            HasChildNamed(rows, RowGenre, GenreName, n) <==> n in Select(gs, GenreName)
  {
    var rows := DetailRows(m, gs, cast, ws);
    if HasChildNamed(rows, RowGenre, GenreName, n) {
      var r :| r in rows && r.movie.id == rows[0].movie.id && RowGenre(r).Some? && GenreName(RowGenre(r).value) == n;
      SelectMember(gs, GenreName, r.genre.value);
    }
    if n in Select(gs, GenreName) {
      var i :| 0 <= i < |gs| && GenreName(gs[i]) == n;
      var r := JoinRow(m, Some(gs[i]), Padded(cast)[0], Padded(ws)[0]);
      assert r in rows && RowGenre(r) == Some(gs[i]);
    }
  }

  lemma DetailRowsActors(m: MovieRecord, gs: seq<Genre>, cast: seq<Actor>, ws: seq<Award>, n: Option<string>)
    ensures var rows := DetailRows(m, gs, cast, ws);
            HasChildNamed(rows, RowActor, ActorName, n) <==> n in Select(cast, ActorName)
  {
    var rows := DetailRows(m, gs, cast, ws);
    if HasChildNamed(rows, RowActor, ActorName, n) {
      var r :| r in rows && r.movie.id == rows[0].movie.id && RowActor(r).Some? && ActorName(RowActor(r).value) == n;
      SelectMember(cast, ActorName, r.actor.value);
    }
    if n in Select(cast, ActorName) {
      var i :| 0 <= i < |cast| && ActorName(cast[i]) == n;
      var r := JoinRow(m, Padded(gs)[0], Some(cast[i]), Padded(ws)[0]);
      assert r in rows && RowActor(r) == Some(cast[i]);
    }
  }

  lemma DetailRowsAwards(m: MovieRecord, gs: seq<Genre>, cast: seq<Actor>, ws: seq<Award>, n: Option<string>)
    ensures var rows := DetailRows(m, gs, cast, ws);
            HasChildNamed(rows, RowAward, AwardName, n) <==> n in Select(ws, AwardName)
  {
    var rows := DetailRows(m, gs, cast, ws);
    if HasChildNamed(rows, RowAward, AwardName, n) {
      var r :| r in rows && r.movie.id == rows[0].movie.id && RowAward(r).Some? && AwardName(RowAward(r).value) == n;
      SelectMember(ws, AwardName, r.award.value);
    }
    if n in Select(ws, AwardName) {
      var i :| 0 <= i < |ws| && AwardName(ws[i]) == n;
      var r := JoinRow(m, Padded(gs)[0], Padded(cast)[0], Some(ws[i]));
      assert r in rows && RowAward(r) == Some(ws[i]);
    }
  }

  /** The cross join is undone: for G genres, A actors and K awards whose names
      are pairwise different, the G x A x K rows give lists of exactly G, A and
      K names, the names of the movie's children (none for an empty list). */
  lemma {:induction false} DetailsCountChildren(m: MovieRecord, gs: seq<Genre>, cast: seq<Actor>, ws: seq<Award>)
    requires NoDuplicates(Select(gs, GenreName))
    requires NoDuplicates(Select(cast, ActorName))
    requires NoDuplicates(Select(ws, AwardName))
    ensures var dto := MovieDetails(DetailRows(m, gs, cast, ws)).value;
            && |dto.genres| == |gs| && |dto.actors| == |cast| && |dto.awards| == |ws|
            && (forall n :: n in dto.genres <==> n in Select(gs, GenreName))
            && (forall n :: n in dto.actors <==> n in Select(cast, ActorName))
            && (forall n :: n in dto.awards <==> n in Select(ws, AwardName))
  {
    var rows := DetailRows(m, gs, cast, ws);
    var dto := MovieDetails(rows).value;
    MovieDetailsNames(rows);
    forall n ensures (n in dto.genres <==> n in Select(gs, GenreName))
                  && (n in dto.actors <==> n in Select(cast, ActorName))
                  && (n in dto.awards <==> n in Select(ws, AwardName))
    {
      MovieDetailsNameSets(rows, n);
      DetailRowsGenres(m, gs, cast, ws, n);
      DetailRowsActors(m, gs, cast, ws, n);
      DetailRowsAwards(m, gs, cast, ws, n);
    }
    SameElementsSameLength(dto.genres, Select(gs, GenreName));
    SameElementsSameLength(dto.actors, Select(cast, ActorName));
    SameElementsSameLength(dto.awards, Select(ws, AwardName));
  }
}
