/** The two join tables MovieActor and MovieGenre. Both are a bag of
    (MovieId, other id) rows with no key and no uniqueness constraint, so one
    class serves both; `relation` says which table an instance stands for. */
module Associations {

  datatype Relation = MovieActor | MovieGenre

  datatype Pair = Pair(movieId: int, otherId: int)

  /** The invariant the controllers' guards are meant to keep: no pair is stored twice. */
  ghost predicate AtMostOnce(rows: multiset<Pair>)
  {
    forall p :: rows[p] <= 1
  }

  /** The table after `INSERT ... VALUES (@movieId, @otherId)`. */
  function Inserted(rows: multiset<Pair>, p: Pair): (r: multiset<Pair>)
    ensures r[p] == rows[p] + 1
    ensures forall q :: q != p ==> r[q] == rows[q]
  {
    rows + multiset{p}
  }

  /** The table after `DELETE ... WHERE MovieId = @movieId AND OtherId = @otherId`. */
  function Removed(rows: multiset<Pair>, p: Pair): (r: multiset<Pair>)
    ensures p !in r
    ensures forall q :: q != p ==> r[q] == rows[q]
  {
    rows[p := 0]
  }

  /** Inserting a pair that is absent keeps every pair stored at most once. */
  lemma InsertAbsentKeepsAtMostOnce(rows: multiset<Pair>, p: Pair)
    requires AtMostOnce(rows) && p !in rows
    ensures AtMostOnce(Inserted(rows, p))
  {
    forall q ensures Inserted(rows, p)[q] <= 1 {
      if q == p {
        assert rows[p] == 0;
      }
    }
  }

  /** Inserting a pair that is present stores it twice. */
  lemma InsertPresentBreaksAtMostOnce(rows: multiset<Pair>, p: Pair)
    requires p in rows
    ensures !AtMostOnce(Inserted(rows, p))
  {
    assert Inserted(rows, p)[p] >= 2;
  }

  lemma RemoveKeepsAtMostOnce(rows: multiset<Pair>, p: Pair)
    requires AtMostOnce(rows)
    ensures AtMostOnce(Removed(rows, p))
  {
    forall q ensures Removed(rows, p)[q] <= 1 {
      if q != p {
        assert Removed(rows, p)[q] == rows[q];
      }
    }
  }

  /** Removing a pair that was just inserted into a table without it restores the table. */
  lemma RemoveUndoesInsert(rows: multiset<Pair>, p: Pair)
    requires p !in rows
    ensures Removed(Inserted(rows, p), p) == rows
  {
    var r := Removed(Inserted(rows, p), p);
    forall q ensures r[q] == rows[q] {
      if q == p {
        assert rows[p] == 0;
      }
    }
    assert r == rows;
  }

  class AssociationTable {
    const relation: Relation
    var rows: multiset<Pair>

    constructor (relation: Relation)
      ensures this.relation == relation && rows == multiset{}
    {
      this.relation := relation;
      rows := multiset{};
    }

    /** IsActorInMovie / IsGenreInMovie: whether the pair is stored. */
    method Contains(movieId: int, otherId: int) returns (present: bool)
      ensures present <==> Pair(movieId, otherId) in rows
    {
      present := Pair(movieId, otherId) in rows;
    }

    /** AddActorInMovie / AddGenreInMovie: inserts one more occurrence of the pair,
        without looking for an existing one. The INSERT affects exactly one row,
        so the "affected == 1" test always holds. */
    method Add(movieId: int, otherId: int) returns (ok: bool)
      modifies this
      ensures rows == Inserted(old(rows), Pair(movieId, otherId))
      ensures ok
    {
      var affected := 1;
      rows := rows + multiset{Pair(movieId, otherId)};
      ok := affected == 1;
    }

    /** DeleteActorInMovie / DeleteGenreInMovie: removes every occurrence of the
        pair; reports success only if exactly one row went. */
    method Remove(movieId: int, otherId: int) returns (ok: bool)
      modifies this
      ensures rows == Removed(old(rows), Pair(movieId, otherId))
      ensures ok <==> old(rows)[Pair(movieId, otherId)] == 1
    {
      var p := Pair(movieId, otherId);
      var affected := rows[p];
      rows := rows[p := 0];
      ok := affected == 1;
    }
  }
}
