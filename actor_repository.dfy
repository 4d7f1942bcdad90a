/** ActorRepository: the Actor table keyed by Id. */
module ActorRepo {
  import opened Wrappers
  import opened Models

  class ActorRepository {
    var rows: map<int, Actor>
    var nextId: int

    ghost predicate Valid()
      reads this
    {
      forall id :: id in rows ==> rows[id].id == id && id < nextId
    }

    constructor ()
      ensures Valid() && rows == map[]
    {
      rows := map[];
      nextId := 1;
    }

    /** Create: INSERT INTO Actor (Name, Gender, Birthday) ...; returns the new identity. */
    method Create(actor: Actor) returns (id: int)
      requires Valid()
      modifies this
      ensures Valid()
      ensures id !in old(rows)
      ensures rows == old(rows)[id := Actor(id, actor.name, actor.gender, actor.birthday)]
    {
      id := nextId;
      rows := rows[id := Actor(id, actor.name, actor.gender, actor.birthday)];
      nextId := nextId + 1;
    }

    /** GetActor: the row with that id, or null. */
    method GetActor(id: int) returns (actor: Option<Actor>)
      ensures actor.Some? <==> id in rows
      ensures actor.Some? ==> actor.value == rows[id]
    {
      actor := if id in rows then Some(rows[id]) else None;
    }

    /** Update: sets Name only; Gender and Birthday keep their stored values.
        True iff one row was affected. */
    method Update(actor: Actor) returns (ok: bool)
      requires Valid()
      modifies this
      ensures Valid() && nextId == old(nextId)
      ensures ok <==> actor.id in old(rows)
      ensures rows == if ok then old(rows)[actor.id := old(rows)[actor.id].(name := actor.name)] else old(rows)
    {
      var affected := if actor.id in rows then 1 else 0;
      if actor.id in rows {
        rows := rows[actor.id := rows[actor.id].(name := actor.name)];
      }
      ok := affected == 1;
    }

    /** Delete: removes only the row with that id; true iff one row was removed. */
    method Delete(id: int) returns (ok: bool)
      requires Valid()
      modifies this
      ensures Valid() && nextId == old(nextId)
      ensures ok <==> id in old(rows)
      ensures rows == old(rows) - {id}
    {
      var affected := if id in rows then 1 else 0;
      rows := rows - {id};
      ok := affected == 1;
    }
  }
}
