/**
 The state-changing operations of the controller, as functions from the store
 before the call to the response and the store after it. The controller class
 is proved to follow them; the lemmas here relate several calls.
 */
module StoreSpec {
  import opened Wrappers
  import opened Habits
  import opened HabitQueries

  /** The state after class initialisation, and after `clearStore`. */
  function Clear(): (s: Store)
    ensures Invariant(s)
    ensures s.habits == map[] && GetAll(s.habits) == []
    ensures s.nextId == 1
  {
    Store(map[], 1)
  }

  /** The completed flag `update` stores: the payload's own flag, or true when the
      payload carries a completion day that is not after today. */
  function EffectiveCompleted(body: Habit, today: int): (c: bool)
    ensures c <==> body.completed || (body.lastCompleted.Some? && body.lastCompleted.value <= today)
  {
    var flag := body.completed;
    if !flag && body.lastCompleted.Some? && !(body.lastCompleted.value > today) then true else flag
  }

  /** `create`: validate the name, refuse a name already stored, then store a new
      habit under the next id. */
  function Create(s: Store, body: Habit): (st: Step<Habit>)
    ensures st.response.BadRequest? || st.response.Conflict? || st.response.Created?
    ensures st.response.BadRequest? <==> !ValidName(body.name)
    ensures st.response.Conflict? <==> ValidName(body.name) && NameTaken(s.habits, body.name)
    ensures !st.response.Created? ==> st.after == s
    ensures st.response.Created? ==>
      var h := st.response.body;
      && h.id == s.nextId
      && h.name == body.name && h.description == body.description && h.completed == body.completed
      && h.lastCompleted.None?
      && st.after.nextId == s.nextId + 1
      && st.after.habits.Keys == s.habits.Keys + {h.id}
      && st.after.habits[h.id] == h
      && (forall k :: k in s.habits && k != h.id ==> st.after.habits[k] == s.habits[k])
    ensures Invariant(s) && st.response.Created? ==> st.response.body.id !in s.habits
    ensures Invariant(s) ==> Invariant(st.after)
  {
    if body.name.None? || Text.IsBlank(body.name.value) then Step(BadRequest, s)
    else if NameTaken(s.habits, body.name) then Step(Conflict, s)
    else
      var id := s.nextId;
      var toSave := Habit(id, body.name, body.description, body.completed, None);
      Step(Created(toSave), Store(s.habits[id := toSave], s.nextId + 1))
  }

  /** `update`: the id must exist, then the name must be valid, then no habit
      with another id may hold it; the record is then rewritten in place. */
  function Update(s: Store, id: int, body: Habit, today: int): (st: Step<Habit>)
    ensures st.response.NotFound? || st.response.BadRequest? || st.response.Conflict? || st.response.Ok?
    ensures st.response.NotFound? <==> id !in s.habits
    ensures st.response.BadRequest? <==> id in s.habits && !ValidName(body.name)
    ensures st.response.Conflict? <==>
      id in s.habits && ValidName(body.name) && NameTakenByOther(s.habits, id, body.name)
    ensures !st.response.Ok? ==> st.after == s
    ensures st.response.Ok? ==>
      var h := st.response.body;
      && id in s.habits
      && st.after.nextId == s.nextId
      && st.after.habits.Keys == s.habits.Keys
      && st.after.habits[id] == h
      && h.id == s.habits[id].id
      && h.name == body.name && h.description == body.description
      && h.completed == (body.completed || (body.lastCompleted.Some? && body.lastCompleted.value <= today))
      && h.lastCompleted == s.habits[id].lastCompleted
      && (forall k :: k in s.habits && k != id ==> st.after.habits[k] == s.habits[k])
    ensures Invariant(s) ==> Invariant(st.after)
  {
    if id !in s.habits then Step(NotFound, s)
    else
      var existing := s.habits[id];
      if body.name.None? || Text.IsBlank(body.name.value) then Step(BadRequest, s)
      else if NameTakenByOther(s.habits, id, body.name) then Step(Conflict, s)
      else
        var updated := existing.(name := body.name, description := body.description,
                                 completed := EffectiveCompleted(body, today));
        Step(Ok(updated), Store(s.habits[id := updated], s.nextId))
  }

  /** `delete`: remove the habit under `id`; NoContent if it was there. */
  function Delete(s: Store, id: int): (st: Step<()>)
    ensures st.response.NoContent? || st.response.NotFound?
    ensures st.response.NoContent? <==> id in s.habits
    ensures st.after.habits.Keys == s.habits.Keys - {id}
    ensures forall k :: k in st.after.habits ==> st.after.habits[k] == s.habits[k]
    ensures st.after.nextId == s.nextId
    ensures Invariant(s) ==> Invariant(st.after)
  {
    var removed := id in s.habits;
    Step(if removed then NoContent else NotFound, Store(s.habits - {id}, s.nextId))
  }

  /** A call that changes the store. */
  datatype Command =
    | ClearCmd
    | CreateCmd(body: Habit)
    | UpdateCmd(id: int, body: Habit, today: int)
    | DeleteCmd(id: int)

  function Apply(s: Store, c: Command): Store {
    match c
    case ClearCmd => Clear()
    case CreateCmd(body) => Create(s, body).after
    case UpdateCmd(id, body, today) => Update(s, id, body, today).after
    case DeleteCmd(id) => Delete(s, id).after
  }

  /** The store after a sequence of calls, made one after another. */
  function Run(s: Store, cmds: seq<Command>): Store
    decreases |cmds|
  {
    if cmds == [] then s else Run(Apply(s, cmds[0]), cmds[1..])
  }

  /** Starting from a store that satisfies the invariant, any sequence of calls
      keeps it. */
  lemma {:induction false} RunKeepsInvariant(s: Store, cmds: seq<Command>)
    requires Invariant(s)
    ensures Invariant(Run(s, cmds))
    decreases |cmds|
  {
    if cmds != [] {
      RunKeepsInvariant(Apply(s, cmds[0]), cmds[1..]);
    }
  }

  /** Without `clearStore`, the counter never goes back. */
  lemma {:induction false} CounterNeverDecreases(s: Store, cmds: seq<Command>)
    requires forall i :: 0 <= i < |cmds| ==> !cmds[i].ClearCmd?
    ensures s.nextId <= Run(s, cmds).nextId
    decreases |cmds|
  {
    if cmds != [] {
      CounterNeverDecreases(Apply(s, cmds[0]), cmds[1..]);
    }
  }

  /** Without `clearStore`, an id below the counter that is absent from the store
      (one issued and then deleted) is never stored again. */
  lemma {:induction false} IdNotReissued(s: Store, cmds: seq<Command>, k: int)
    requires k < s.nextId && k !in s.habits
    requires forall i :: 0 <= i < |cmds| ==> !cmds[i].ClearCmd?
    ensures k !in Run(s, cmds).habits
    decreases |cmds|
  {
    if cmds != [] {
      IdNotReissued(Apply(s, cmds[0]), cmds[1..], k);
    }
  }

  /** Once a habit is deleted, its id is absent from the store after any further
      calls that do not clear it: `getById` and `delete` both report NotFound. */
  lemma DeletedStaysGone(s: Store, id: int, cmds: seq<Command>)
    requires Invariant(s) && id in s.habits
    requires forall i :: 0 <= i < |cmds| ==> !cmds[i].ClearCmd?
    ensures GetById(Run(Delete(s, id).after, cmds).habits, id) == NotFound
    ensures Delete(Run(Delete(s, id).after, cmds), id).response == NotFound
  {
    IdNotReissued(Delete(s, id).after, cmds, id);
  }

  /** Two successful creates issue strictly increasing ids, whatever happens in
      between short of `clearStore`. */
  lemma CreatedIdsIncrease(s: Store, b1: Habit, cmds: seq<Command>, b2: Habit)
    requires forall i :: 0 <= i < |cmds| ==> !cmds[i].ClearCmd?
    requires Create(s, b1).response.Created?
    requires Create(Run(Create(s, b1).after, cmds), b2).response.Created?
    ensures Create(s, b1).response.body.id < Create(Run(Create(s, b1).after, cmds), b2).response.body.id
  {
    CounterNeverDecreases(Create(s, b1).after, cmds);
  }

  /** Renaming a habit to its own current name is not a conflict. */
  lemma RenameToOwnName(s: Store, id: int, body: Habit, today: int)
    requires Invariant(s) && id in s.habits
    requires body.name == s.habits[id].name
    ensures Update(s, id, body, today).response.Ok?
  {
    OwnNameNotTakenByOther(s, id);
  }

  /** `getById` on the id a successful create returned gives back that habit. */
  lemma CreateThenGet(s: Store, body: Habit)
    requires Create(s, body).response.Created?
    ensures GetById(Create(s, body).after.habits, Create(s, body).response.body.id)
         == Ok(Create(s, body).response.body)
  {
  }
}
