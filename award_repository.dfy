/** AwardRepository: the Award table keyed by Id; every row names its movie. */
module AwardRepo {
  import opened Wrappers
  import opened Models

  class AwardRepository {
    var rows: map<int, Award>
    var nextId: int

    ghost predicate Valid()
      reads this
    {
      forall id :: id in rows ==> rows[id].id == id && id < nextId
    }

    constructor ()
      ensures Valid() && rows == map[]
    {
      rows := map[];
      nextId := 1;
    }

    /** Create: INSERT INTO Award (Name, Year, MovieId) ...; returns the new identity. */
    method Create(award: Award) returns (id: int)
      requires Valid()
      modifies this
      ensures Valid()
      ensures id !in old(rows)
      ensures rows == old(rows)[id := Award(id, award.name, award.year, award.movieId)]
    {
      id := nextId;
      rows := rows[id := Award(id, award.name, award.year, award.movieId)];
      nextId := nextId + 1;
    }

    /** Delete: removes the row with that id; true iff one row was removed. */
    method Delete(id: int) returns (ok: bool)
      requires Valid()
      modifies this
      ensures Valid() && nextId == old(nextId)
      ensures ok <==> id in old(rows)
      ensures rows == old(rows) - {id}
    {
      var affected := if id in rows then 1 else 0;
      rows := rows - {id};
      ok := affected == 1;
    }

    /** The rows spAward_GetAllByMovieId selects: every award of the given movie
        and no other. The result set's order is not modelled. */
    function ByMovie(movieId: int): (awards: set<Award>)
      requires Valid()
      reads this
      ensures forall a :: a in awards ==> a.movieId == movieId && a.id in rows && rows[a.id] == a
      ensures forall id :: id in rows && rows[id].movieId == movieId ==> rows[id] in awards
    {
      set id | id in rows && rows[id].movieId == movieId :: rows[id]
    }

    /** GetAllByMovieId */
    method GetAllByMovieId(movieId: int) returns (awards: set<Award>)
      requires Valid()
      ensures awards == ByMovie(movieId)
    {
      awards := ByMovie(movieId);
    }

    /** GetAward: the row with that id, or null. */
    method GetAward(id: int) returns (award: Option<Award>)
      ensures award.Some? <==> id in rows
      ensures award.Some? ==> award.value == rows[id]
    {
      award := if id in rows then Some(rows[id]) else None;
    }

    /** Update: sets Name and Year; MovieId is never written. True iff one row
        was affected. */
    method Update(award: Award) returns (ok: bool)
      requires Valid()
      modifies this
      ensures Valid() && nextId == old(nextId)
      ensures ok <==> award.id in old(rows)
      ensures rows == if ok then old(rows)[award.id := old(rows)[award.id].(name := award.name, year := award.year)]
                      else old(rows)
    {
      var affected := if award.id in rows then 1 else 0;
      if award.id in rows {
        rows := rows[award.id := rows[award.id].(name := award.name, year := award.year)];
      }
      ok := affected == 1;
    }
  }
}
