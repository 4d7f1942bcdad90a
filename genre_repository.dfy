/** GenreRepository: the Genre table keyed by Id. */
module GenreRepo {
  import opened Wrappers
  import opened Linq
  import opened Models

  /** A non-empty set of ids has an element (the witness `:|` needs). */
  lemma NonEmptyHasId(ids: set<int>)
    requires ids != {}
    ensures exists id :: id in ids
  {
    if forall id :: id !in ids {
      assert false;
    }
  }

  class GenreRepository {
    var rows: map<int, Genre>
    var nextId: int

    ghost predicate Valid()
      reads this
    {
      forall id :: id in rows ==> rows[id].id == id && id < nextId
    }

    /** No two genres share a name. Nothing in the table enforces it; only the
        controllers' name checks keep it. */
    ghost predicate UniqueNames()
      reads this
    {
      forall i, j :: i in rows && j in rows && rows[i].name == rows[j].name ==> i == j
    }

    /** The ids of the rows that `WHERE g.Name = @Name` selects. */
    function Named(name: string): (ids: set<int>)
      reads this
      ensures forall id :: id in ids <==> id in rows && rows[id].name == Some(name)
    {
      set id | id in rows && rows[id].name == Some(name)
    }

    constructor ()
      ensures Valid() && UniqueNames() && rows == map[]
    {
      rows := map[];
      nextId := 1;
    }

    /** Create: INSERT INTO Genre (Name) ...; returns the new identity. */
    method Create(genre: Genre) returns (id: int)
      requires Valid()
      modifies this
      ensures Valid()
      ensures id !in old(rows)
      ensures rows == old(rows)[id := Genre(id, genre.name)]
    {
      id := nextId;
      rows := rows[id := Genre(id, genre.name)];
      nextId := nextId + 1;
    }

    /** Delete: removes the row with that id; true iff one row was removed. */
    method Delete(id: int) returns (ok: bool)
      requires Valid()
      modifies this
      ensures Valid() && nextId == old(nextId)
      ensures ok <==> id in old(rows)
      ensures rows == old(rows) - {id}
    {
      var affected := if id in rows then 1 else 0;
      rows := rows - {id};
      ok := affected == 1;
    }

    /** GetGenre(int): the row with that id, or null. */
    method GetGenre(id: int) returns (genre: Option<Genre>)
      ensures genre.Some? <==> id in rows
      ensures genre.Some? ==> genre.value == rows[id]
    {
      genre := if id in rows then Some(rows[id]) else None;
    }

    /** GetGenre(string): the single row with that name, null when there is
        none; QuerySingleOrDefault throws when there are several. */
    method GetGenreByName(name: string) returns (r: Result<Option<Genre>, Fault>)
      requires Valid()
      ensures r.Failure? <==> |Named(name)| > 1
      ensures r == Success(None) <==> Named(name) == {}
      ensures r.Success? && r.value.Some? ==>
                r.value.value.id in rows && rows[r.value.value.id] == r.value.value && r.value.value.name == Some(name)
    {
      var ids := Named(name);
      if ids == {} {
        return Success(None);
      }
      if |ids| > 1 {
        return Failure(SequenceContainsMoreThanOneElement);
      }
      NonEmptyHasId(ids);
      var id :| id in ids;
      r := Success(Some(rows[id]));
    }

    /** Update: sets Name of the row whose Id is genre.id and nothing else; true
        iff one row was affected. */
    method Update(genre: Genre) returns (ok: bool)
      requires Valid()
      modifies this
      ensures Valid() && nextId == old(nextId)
      ensures ok <==> genre.id in old(rows)
      ensures rows == if ok then old(rows)[genre.id := old(rows)[genre.id].(name := genre.name)] else old(rows)
    {
      var affected := if genre.id in rows then 1 else 0;
      if genre.id in rows {
        rows := rows[genre.id := rows[genre.id].(name := genre.name)];
      }
      ok := affected == 1;
    }

    /** With unique names the by-name lookup never finds more than one row, so
        it never throws. */
    lemma UniqueNamesNamedAtMostOne(name: string)
      requires UniqueNames()
      ensures |Named(name)| <= 1
    {
      var ids := Named(name);
      if ids != {} {
        NonEmptyHasId(ids);
        var i :| i in ids;
        forall j | j in ids ensures j == i {
          assert rows[j].name == rows[i].name;
        }
        assert ids == {i};
      }
    }
  }
}
