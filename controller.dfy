/**
 The controller's shared state and the operations that change it. The map and
 the counter are fields; each mutating method is proved to leave exactly the
 store, and give exactly the response, that the matching StoreSpec function
 describes, and to keep the store invariant.
 */
module Controller {
  import opened Wrappers
  import opened Text
  import opened Habits
  import StoreSpec

  class HabitController {
    /** `STORE`: habits by id. */
    var store: map<int, Habit>
    /** `ID_SEQ`: the next id to issue. */
    var idSeq: int

    function Snapshot(): Store
      reads this
    {
      Store(store, idSeq)
    }

    ghost predicate Valid()
      reads this
    {
      Invariant(Snapshot())
    }

    /** The static initialisers: an empty map and a counter at 1. */
    constructor ()
      ensures Valid()
      ensures Snapshot() == StoreSpec.Clear()
    {
      store := map[];
      idSeq := 1;
    }

    /** `clearStore`: empty the map and reset the counter to 1. */
    method ClearStore()
      modifies this
      ensures Valid()
      ensures Snapshot() == StoreSpec.Clear()
    {
      store := map[];
      idSeq := 1;
    }

    /** The duplicate scan of `create`: does any stored habit carry this exact name? */
    method DuplicateName(name: Option<string>) returns (found: bool)
      ensures found <==> NameTaken(store, name)
    {
      var rest := store.Keys;
      found := false;
      while rest != {} && !found
        invariant rest <= store.Keys
        invariant found ==> NameTaken(store, name)
        invariant !found ==> forall k :: k in store && k !in rest ==> store[k].name != name
        decreases rest
      {
        assert (forall x :: x !in rest) ==> rest == {};
        var k :| k in rest;
        found := store[k].name == name;
        rest := rest - {k};
      }
    }

    /** The duplicate scan of `update`: does a stored habit whose id differs from
        `id` carry this exact name? */
    method DuplicateNameOfOther(id: int, name: Option<string>) returns (found: bool)
      ensures found <==> NameTakenByOther(store, id, name)
    {
      var rest := store.Keys;
      found := false;
      while rest != {} && !found
        invariant rest <= store.Keys
        invariant found ==> NameTakenByOther(store, id, name)
        invariant !found ==> forall k :: k in store && k !in rest ==> !(store[k].id != id && store[k].name == name)
        decreases rest
      {
        assert (forall x :: x !in rest) ==> rest == {};
        var k :| k in rest;
        var other := store[k];
        found := other.id != id && other.name == name;
        rest := rest - {k};
      }
    }

    /** `create`. */
    method Create(body: Habit) returns (r: Response<Habit>)
      requires Valid()
      modifies this
      ensures Valid()
      ensures Step(r, Snapshot()) == StoreSpec.Create(old(Snapshot()), body)
    {
      if body.name.None? || IsBlank(body.name.value) {
        return BadRequest;
      }
      var duplicate := DuplicateName(body.name);
      if duplicate {
        return Conflict;
      }
      var id := idSeq;
      idSeq := idSeq + 1;
      var toSave := Habit(id, body.name, body.description, body.completed, None);
      store := store[id := toSave];
      r := Created(toSave);
    }

    /** `createViaSingular`: the same operation under a second path. */
    method CreateViaSingular(body: Habit) returns (r: Response<Habit>)
      requires Valid()
      modifies this
      ensures Valid()
      ensures Step(r, Snapshot()) == StoreSpec.Create(old(Snapshot()), body)
    {
      r := Create(body);
    }

    /** `update`, with the current day passed in as `today`. */
    method Update(id: int, body: Habit, today: int) returns (r: Response<Habit>)
      requires Valid()
      modifies this
      ensures Valid()
      ensures Step(r, Snapshot()) == StoreSpec.Update(old(Snapshot()), id, body, today)
    {
      if id !in store {
        return NotFound;
      }
      var existing := store[id];
      if body.name.None? || IsBlank(body.name.value) {
        return BadRequest;
      }
      var duplicateName := DuplicateNameOfOther(id, body.name);
      if duplicateName {
        return Conflict;
      }
      var completedFlag := body.completed;
      if !completedFlag && body.lastCompleted.Some? && !(body.lastCompleted.value > today) {
        completedFlag := true;
      }
      existing := existing.(name := body.name, description := body.description, completed := completedFlag);
      store := store[id := existing];
      r := Ok(existing);
    }

    /** `delete`. */
    method Delete(id: int) returns (r: Response<()>)
      requires Valid()
      modifies this
      ensures Valid()
      ensures Step(r, Snapshot()) == StoreSpec.Delete(old(Snapshot()), id)
    {
      var removed := id in store;
      store := store - {id};
      r := if removed then NoContent else NotFound;
    }
  }
}
