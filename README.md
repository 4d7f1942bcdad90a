# MovieApi catalogue — a Dafny model

MovieApi is an ASP.NET Core web API over a SQL Server catalogue of movies, genres,
actors and awards. The model covers its statable logic:

- **Movie-details assembly.** `MovieRepository.GetMovie` receives one result row per
  Movie × Genre × Actor × Award combination. It attaches one (possibly null) child of
  each kind per row, groups the rows by movie id, and returns the first group with its
  child lists concatenated. Nothing is deduplicated at this stage.
- **Name deduplication.** `MovieService.GetMovieById` then drops the null children,
  projects each child to its `Name`, and applies `Distinct`.
- **The two join tables** `MovieActor` and `MovieGenre`. Each is a bag of
  `(MovieId, other id)` rows with no uniqueness constraint. INSERT does not check for
  an existing row, and DELETE removes every matching row. Success means "exactly one
  row affected".
- **The keyed tables** Movie, Genre, Actor and Award. Each UPDATE writes only the
  columns its SQL names.
- **The controllers' guard sequences.** Each endpoint runs existence checks in a fixed
  order before it mutates anything. These checks are the only thing that keeps
  "each pair stored at most once" and "genre names are unique" true.

Layout, one module per file:

| file | module | contents |
|---|---|---|
| `wrappers.dfy` | `Wrappers` | `Option`, `Result` |
| `linq.dfy` | `Linq` | Select, Where, GroupBy, SelectMany and Distinct as sequence functions (`First()` is `groups[0]` inside `MovieRepo.GetMovie`), with their lemmas; the two `InvalidOperationException` faults |
| `models.dfy` | `Models` | the row records and the join-row shape |
| `associations.dfy` | `Associations` | one `AssociationTable` class over a multiset of pairs, serving both join tables |
| `movie_repository.dfy` | `MovieRepo` | `GetMovie` as a pure fold over the join rows; the Movie table as a class |
| `genre_repository.dfy`, `actor_repository.dfy`, `award_repository.dfy` | `GenreRepo`, `ActorRepo`, `AwardRepo` | the other keyed tables as classes over `map<int, Record>`, each with an identity counter |
| `movie_service.dfy` | `MovieService`, `MovieServiceExample` | the DTO construction and the lemmas about `GetMovie` and `GetMovieById` composed |
| `cross_join.dfy` | `CrossJoin` | the full cross-join result set and the theorem that the DTO undoes it |
| `http.dfy` | `Http` | `Response`: which `IActionResult` an endpoint returns |
| `movies_controller.dfy`, `actors_controller.dfy`, `genres_controller.dfy`, `awards_controller.dfy` | `MoviesApi`, `ActorsApi`, `GenresApi`, `AwardsApi` | one class per controller, holding references to the shared repository objects |
| `scenarios.dfy` | `Scenarios` | request sequences: add twice, add then delete, add from either side |

Modelling choices:

- The outputs of stored procedures the model cannot see are parameters:
  - the rows of `spMovie_GetMovieDetails`;
  - the genres and actors of a movie;
  - the movies of a genre or an actor.

  The awards of a movie are read from the Award table instead, because every award
  row carries its `MovieId`.
- A C# `string?` becomes `Option<string>`, and a `DateTime` is a `Date` kept as its tick count.
- `Required` DTO names are plain strings, because model binding never passes them
  through as null.

Two behaviours of the code worth stating up front:

- `GetMovie` deduplicates nothing. `GetMovieById` deduplicates each child list by
  `Name`, so distinct children with the same name collapse to one entry (see
  `SameNamedAwardsCollapse`). `DistinctNamesOfDistinctNames` and
  `DetailsCountChildren` state the count property under the condition this needs:
  child names pairwise different.
- `GetMovie` on an empty result set throws from `First()`; it does not return null.

## Model

| member | source | states |
|---|---|---|
| Linq.Select | MovieApi/Services/Movie/MovieService.cs:77 | same length as the input; the i-th output is f of the i-th input |
| Linq.WithKey | MovieApi/Repositories/MovieRepository.cs:76 | keeps exactly the elements with key k: no element without it, every element with it |
| Linq.GroupBy | MovieApi/Repositories/MovieRepository.cs:76 | no groups iff no elements; every group is non-empty and key-uniform; the first group is every element sharing the first element's key, in order |
| Linq.Somes | MovieApi/Services/Movie/MovieService.cs:71-73 | Where(x => x != null): every kept value came from a non-null entry, and every non-null entry is kept |
| Linq.Distinct | MovieApi/Services/Movie/MovieService.cs:78 | the result has no duplicates, the same elements as the input, and is no longer than it |
| Linq.WithKeyAppend | MovieApi/Repositories/MovieRepository.cs:76 | filtering by key distributes over concatenation |
| Linq.WithKeyAll | MovieApi/Repositories/MovieRepository.cs:76 | filtering a key-uniform sequence by that key keeps it whole |
| Linq.WithKeySelect | MovieApi/Repositories/MovieRepository.cs:64-76 | grouping the mapped rows by movie id is mapping the rows filtered by id |
| Linq.SelectManyOfSingletons | MovieApi/Repositories/MovieRepository.cs:79-81 | SelectMany over per-row singleton lists is a plain Select |
| Linq.SomesAppend | MovieApi/Services/Movie/MovieService.cs:71-73 | the null filter distributes over concatenation |
| Linq.DistinctAppendSeen | MovieApi/Services/Movie/MovieService.cs:78 | appending elements already present does not change Distinct |
| Linq.DistinctOfNoDuplicates | MovieApi/Services/Movie/MovieService.cs:78 | Distinct leaves a duplicate-free list unchanged |
| Linq.NoDuplicatesCard | MovieApi/Services/Movie/MovieService.cs:78 | a duplicate-free list has as many elements as its set |
| Linq.SameElementsSameLength | MovieApi/Services/Movie/MovieService.cs:78 | two duplicate-free lists with the same members have the same length |
| Associations.Inserted | MovieApi/Repositories/MovieRepository.cs:110-119 | the INSERT adds one occurrence of the pair and leaves every other pair's count alone |
| Associations.Removed | MovieApi/Repositories/MovieRepository.cs:166-176 | the DELETE leaves the pair absent and every other pair's count alone |
| Associations.InsertAbsentKeepsAtMostOnce | MovieApi/Controllers/MoviesController.cs:339-346 | inserting an absent pair keeps every pair stored at most once |
| Associations.InsertPresentBreaksAtMostOnce | MovieApi/Repositories/MovieRepository.cs:110-119 | the unchecked INSERT of a present pair stores it twice |
| Associations.RemoveKeepsAtMostOnce | MovieApi/Repositories/MovieRepository.cs:178-188 | deleting keeps every pair stored at most once |
| Associations.RemoveUndoesInsert | MovieApi/Repositories/MovieRepository.cs:178-188 | deleting a pair just inserted into a table without it restores the table |
| Associations.AssociationTable.Contains | MovieApi/Repositories/MovieRepository.cs:100-108 | IsActorInMovie/IsGenreInMovie: true iff the pair is stored; nothing changes |
| Associations.AssociationTable.Add | MovieApi/Repositories/MovieRepository.cs:110-119 | AddActorInMovie/AddGenreInMovie: one more occurrence without any check; always reports true |
| Associations.AssociationTable.Remove | MovieApi/Repositories/MovieRepository.cs:166-188 | DeleteActorInMovie/DeleteGenreInMovie: every occurrence removed; true iff exactly one existed |
| MovieRepo.GetMovie | MovieApi/Repositories/MovieRepository.cs:58-87 | fails with "no elements" iff the result set is empty; otherwise the scalars are those of the first row |
| MovieRepo.GetMovieChildLists | MovieApi/Repositories/MovieRepository.cs:66-81 | each child list is the in-order list of that group's per-row children, nulls and repeats kept, so all three have the group's length |
| MovieRepo.GetMovieIgnoresOtherMovies | MovieApi/Repositories/MovieRepository.cs:76-83 | rows of another movie id contribute nothing: same result as from the first movie's rows alone |
| MovieRepo.UpdatedMovie | MovieApi/Repositories/MovieRepository.cs:142-153 | the UPDATE writes ReleaseDate and Rate and keeps every other column |
| MovieRepo.MovieRepository.Create | MovieApi/Repositories/MovieRepository.cs:17-26 | stores the movie under a fresh identity and returns that identity |
| MovieRepo.MovieRepository.GetMovieOnly | MovieApi/Repositories/MovieRepository.cs:88-98 | the row with that id, or null |
| MovieRepo.MovieRepository.Update | MovieApi/Repositories/MovieRepository.cs:142-153 | only ReleaseDate and Rate of that row change; true iff the row existed |
| MovieRepo.MovieRepository.Delete | MovieApi/Repositories/MovieRepository.cs:155-164 | removes only that row; true iff it existed |
| GenreRepo.GenreRepository.Named | MovieApi/Repositories/GenreRepository.cs:71-81 | exactly the ids whose row has that name |
| GenreRepo.GenreRepository.Create | MovieApi/Repositories/GenreRepository.cs:17-26 | inserts the name under a fresh id and returns it |
| GenreRepo.GenreRepository.Delete | MovieApi/Repositories/GenreRepository.cs:28-37 | removes only that row; true iff it existed |
| GenreRepo.GenreRepository.GetGenre | MovieApi/Repositories/GenreRepository.cs:59-69 | the row with that id, or null |
| GenreRepo.GenreRepository.GetGenreByName | MovieApi/Repositories/GenreRepository.cs:71-81 | null iff no row has the name; the row iff one has it; throws iff several have it |
| GenreRepo.GenreRepository.Update | MovieApi/Repositories/GenreRepository.cs:83-94 | sets Name of that row only; true iff it existed |
| GenreRepo.GenreRepository.UniqueNamesNamedAtMostOne | MovieApi/Repositories/GenreRepository.cs:71-81 | with unique genre names, the by-name lookup never finds more than one row |
| ActorRepo.ActorRepository.Create | MovieApi/Repositories/ActorRepository.cs:18-27 | inserts Name, Gender and Birthday under a fresh id and returns it |
| ActorRepo.ActorRepository.GetActor | MovieApi/Repositories/ActorRepository.cs:39-49 | the row with that id, or null |
| ActorRepo.ActorRepository.Update | MovieApi/Repositories/ActorRepository.cs:61-72 | sets Name only; Gender and Birthday keep their stored values; true iff the row existed |
| ActorRepo.ActorRepository.Delete | MovieApi/Repositories/ActorRepository.cs:74-83 | removes only that row; true iff it existed |
| AwardRepo.AwardRepository.Create | MovieApi/Repositories/AwardRepository.cs:18-27 | inserts Name, Year and MovieId under a fresh id and returns it |
| AwardRepo.AwardRepository.Delete | MovieApi/Repositories/AwardRepository.cs:29-38 | removes only that row; true iff it existed |
| AwardRepo.AwardRepository.ByMovie | MovieApi/Repositories/AwardRepository.cs:50-58 | every award of the movie and no other |
| AwardRepo.AwardRepository.GetAllByMovieId | MovieApi/Repositories/AwardRepository.cs:50-58 | returns the movie's awards |
| AwardRepo.AwardRepository.GetAward | MovieApi/Repositories/AwardRepository.cs:60-70 | the row with that id, or null |
| AwardRepo.AwardRepository.Update | MovieApi/Repositories/AwardRepository.cs:72-83 | sets Name and Year; MovieId is never written; true iff the row existed |
| MovieService.DistinctNames | MovieApi/Services/Movie/MovieService.cs:71-91 | duplicate-free; holds the name of every non-null child and only such names; empty (not null) iff every child is null |
| MovieService.ToDto | MovieApi/Services/Movie/MovieService.cs:61-91 | Id, Title, Director, Duration, ReleaseDate and Rate copied; each list is the distinct names of its non-null children |
| MovieService.GetMovieById | MovieApi/Services/Movie/MovieService.cs:56-94 | null iff the movie is null; otherwise its DTO |
| MovieService.MovieDetails | MovieApi/Services/Movie/MovieService.cs:58-59 | the repository's fault iff the result set is empty; otherwise the DTO of the assembled movie, carrying the first row's id and rate |
| MovieService.UpdateMovie | MovieApi/Services/Movie/MovieService.cs:104-114 | the record sent carries only id, release date and rate; Title, Director and Duration hold their defaults |
| MovieService.UpdateMovieKeepsUnsentColumns | MovieApi/Services/Movie/MovieService.cs:104-113 | through the repository's UPDATE, the stored title, director and duration survive |
| MovieService.MovieDetailsNames | MovieApi/Services/Movie/MovieService.cs:71-90 | each DTO list is the distinct names of the non-null children of the first movie's rows |
| MovieService.NamesOfRows | MovieApi/Services/Movie/MovieService.cs:71-90 | a name is listed iff some row carries a non-null child with that name |
| MovieService.MovieDetailsNameSets | MovieApi/Services/Movie/MovieService.cs:71-90 | genre, actor and award names listed iff some row of the movie carries a child of that kind with that name |
| MovieService.DistinctNamesOfDistinctNames | MovieApi/Services/Movie/MovieService.cs:77-78 | children with pairwise different names give one entry each, as many as the non-null children |
| MovieService.DistinctNamesAppendSeen | MovieApi/Services/Movie/MovieService.cs:71-78 | appending children that already occur leaves the names unchanged |
| MovieService.RepeatedRowsCollapse | MovieApi/Services/Movie/MovieService.cs:71-90 | composed with GetMovie, the DTO does not change when the result set repeats rows it already has |
| MovieServiceExample.SameNamedAwardsCollapse | MovieApi/Services/Movie/MovieService.cs:87-91 | two different "Best Film" awards appear as one name |
| CrossJoin.DetailRows | MovieApi/Repositories/MovieRepository.cs:62-75 | the cross-join result set: a row for every genre × actor × award combination, with nulls for empty lists |
| CrossJoin.DetailsCountChildren | MovieApi/Services/Movie/MovieService.cs:71-91 | for G genres, A actors and K awards with pairwise different names, the lists have exactly G, A and K entries, their names |
| MoviesApi.MoviesController.GetMovieById | MovieApi/Controllers/MoviesController.cs:98-118 | 404 iff the movie row is absent; 500 iff it exists but the result set is empty; else 200 with the assembled details |
| MoviesApi.MoviesController.GetMovieGenres | MovieApi/Controllers/MoviesController.cs:141-165 | 404 iff the movie is absent; 204 iff the list is empty; else 200 with the list |
| MoviesApi.MoviesController.GetMovieActors | MovieApi/Controllers/MoviesController.cs:188-212 | 404 iff the movie is absent; 204 iff the list is empty; else 200 with the list |
| MoviesApi.MoviesController.GetMovieAwards | MovieApi/Controllers/MoviesController.cs:235-259 | 404 iff the movie is absent; 204 iff it exists and has no awards; 200 iff it exists and has awards, carrying exactly its awards |
| MoviesApi.MoviesController.AddActorToMovie | MovieApi/Controllers/MoviesController.cs:321-353 | 404 movie, then 404 actor, then 400 if the pair is present, else inserts it and returns 200; nothing changes off the 200 path; at-most-once kept |
| MoviesApi.MoviesController.AddGenreToMovie | MovieApi/Controllers/MoviesController.cs:377-409 | 404 movie, then 404 genre, then 400 if the pair is present, else inserts it and returns 200; nothing changes off the 200 path; at-most-once kept |
| MoviesApi.MoviesController.UpdateMovie | MovieApi/Controllers/MoviesController.cs:436-455 | 404 with no change iff the movie is absent; else only its release date and rate change and it returns 200 |
| MoviesApi.MoviesController.DeleteMovie | MovieApi/Controllers/MoviesController.cs:476-494 | 404 iff the movie is absent; only that row goes |
| MoviesApi.MoviesController.DeleteGenreFromMovie | MovieApi/Controllers/MoviesController.cs:517-548 | 404 movie, then 404 genre, then 400 if the pair is absent, else deletes it and returns 200; nothing changes off the 200 path |
| MoviesApi.MoviesController.DeleteActorFromMovie | MovieApi/Controllers/MoviesController.cs:571-602 | 404 movie, then 404 actor, then 400 if the pair is absent, else deletes it and returns 200; nothing changes off the 200 path |
| ActorsApi.ActorsController.GetActorById | MovieApi/Controllers/ActorsController.cs:82-100 | 404 iff the actor is absent; else 200 with its row |
| ActorsApi.ActorsController.GetActorMovies | MovieApi/Controllers/ActorsController.cs:123-147 | 404 iff the actor is absent; 204 iff the list is empty; else 200 with the list |
| ActorsApi.ActorsController.AddMovieToActor | MovieApi/Controllers/ActorsController.cs:211-243 | 404 actor before 404 movie; 400 if (movieId, id) is present; else inserts (movieId, id) and returns 200 |
| ActorsApi.ActorsController.UpdateActor | MovieApi/Controllers/ActorsController.cs:270-289 | 404 with no change iff the actor is absent; else only its name changes |
| ActorsApi.ActorsController.DeleteActor | MovieApi/Controllers/ActorsController.cs:310-328 | 404 iff the actor is absent; only that row goes |
| ActorsApi.ActorsController.DeleteMovieFromActor | MovieApi/Controllers/ActorsController.cs:352-383 | 404 actor, then 404 movie, then 400 if the pair is absent, else deletes (movieId, id) and returns 200 |
| GenresApi.GenresController.GetGenreById | MovieApi/Controllers/GenresController.cs:83-101 | 404 iff the genre is absent; else 200 with its row |
| GenresApi.GenresController.GetGenreMovies | MovieApi/Controllers/GenresController.cs:124-148 | 404 iff the genre is absent; 204 iff the list is empty; else 200 with the list |
| GenresApi.GenresController.CreateGenre | MovieApi/Controllers/GenresController.cs:173-190 | 400 iff one genre has the name; 500 iff several do; else 201 with the new genre; unique names kept |
| GenresApi.GenresController.UpdateGenre | MovieApi/Controllers/GenresController.cs:274-297 | 404 first; 400 if any genre has the name, the renamed one included; else the name changes; unique names kept |
| GenresApi.GenresController.DeleteGenre | MovieApi/Controllers/GenresController.cs:318-336 | 404 iff the genre is absent; only that row goes |
| GenresApi.GenresController.AddMovieToGenre | MovieApi/Controllers/GenresController.cs:214-246 | 404 genre before 404 movie; 400 if (movieId, id) is present; else it is inserted and 200 returned |
| GenresApi.GenresController.DeleteMovieFromGenre | MovieApi/Controllers/GenresController.cs:360-391 | 404 genre, then 404 movie, then 400 with no change if the pair is absent, else deletes it and returns 200 |
| AwardsApi.AwardsController.GetAwardById | MovieApi/Controllers/AwardsController.cs:80-98 | 404 iff the award is absent; else 200 with its row |
| AwardsApi.AwardsController.CreateAward | MovieApi/Controllers/AwardsController.cs:127-148 | 404 with nothing created iff the movie is absent; else 201 under the new id with the requested MovieId; awards keep referring to existing movies |
| AwardsApi.AwardsController.UpdateAward | MovieApi/Controllers/AwardsController.cs:176-195 | 404 with no change iff the award is absent; else name and year change and MovieId stays |
| AwardsApi.AwardsController.DeleteAward | MovieApi/Controllers/AwardsController.cs:216-234 | 404 iff the award is absent; only that row goes |
| Scenarios.AddActorTwice | MovieApi/Controllers/MoviesController.cs:339-346 | the second identical request gets 400, and the pair is stored once |
| Scenarios.AddThenDeleteActor | MovieApi/Controllers/MoviesController.cs:575-595 | adding an absent actor and deleting it again both return 200 and restore the table |
| Scenarios.AddFromEitherSide | MovieApi/Controllers/ActorsController.cs:229-236 | both controllers store the same (movieId, actorId) row; the second request, from the other side, gets 400 |

## Left out

- HTTP routing, `Produces` attributes, message texts, Swagger documentation and
  logging. An endpoint's result is only its `Response` case.
- The blanket `catch` → 500 for store faults. The only 500s modelled are the two
  exceptions the code itself raises:
  - `First()` on an empty details result set;
  - `QuerySingleOrDefault` on a genre name held by several rows.
- Dapper, connections, and `async`/`await`. Every store call is a synchronous, total
  operation on the abstract state.
- The check-then-insert race between concurrent requests. It needs concurrency,
  which the model does not have.
- Stored procedure bodies. Their outputs are parameters (the join rows, and the
  genres, actors or movies of an entity). An absent outer-join part is assumed to
  arrive as null.
- Date parsing (`"M-d-yyyy"`) and culture-dependent `"D"` formatting. Dates are
  kept as tick counts and never computed with.
- Data-annotation validation (`Required`, `Range`, `MaxLength`), which model binding
  enforces.
- SQL collation: a name comparison is plain string equality.
- Foreign-key cascades: none are assumed. Deleting a movie, actor or genre leaves
  its join-table rows and awards in place. So `AwardsReferenceMovies` is not claimed
  to survive `DeleteMovie`.
- 32-bit `int` overflow of ids, rates and years. Integers are unbounded, and
  identities come from a counter that is never reused.
- Endpoints with no guard logic: `GetAllMovies`, `GetAllGenres`, `GetAllAwards`,
  `GetAllActors`, `CreateMovie` and `CreateActor`. They forward to a repository call, and the
  repository `Create` operations themselves are modelled.
- The pass-through services (`ActorService`, `AwardService`, `GenreService`,
  `MovieActorService`, `MovieGenreService`) and the AutoMapper profiles. Each
  controller method inlines its DTO-to-record mapping.
- The Award and Genre records and their DTOs carry exactly the fields the SQL and
  the controller call sites use; other properties they may have are not modelled.
- AwardRepo.AwardRepository.ByMovie: the result is a set, so the order of
  `spAward_GetAllByMovieId`'s rows is not modelled.
