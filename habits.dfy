/**
 The data of the habit store: the `Habit` record, the outcome of an operation,
 and the store itself (the map from id to habit and the id counter), with the
 invariant every operation keeps.
 */
module Habits {
  import opened Wrappers
  import opened Text

  /** A habit record, and also the shape of a request payload. Days are counted
      as integers; `createdAt` is not part of this model. */
  datatype Habit = Habit(
    id: int,
    name: Option<string>,
    description: Option<string>,
    completed: bool,
    lastCompleted: Option<int>)

  /** The outcome of an operation; the HTTP status each stands for is only a label:
      200, 201, 204, 404, 400 and 409. */
  datatype Response<T> =
    | Ok(body: T)
    | Created(body: T)
    | NoContent
    | NotFound
    | BadRequest
    | Conflict

  /** The shared state: `STORE` and `ID_SEQ`. */
  datatype Store = Store(habits: map<int, Habit>, nextId: int)

  /** What an operation answers, and the store it leaves behind. */
  datatype Step<T> = Step(response: Response<T>, after: Store)

  /** A name passes validation when it is present and not blank. */
  predicate ValidName(name: Option<string>) {
    name.Some? && !IsBlank(name.value)
  }

  /** Some stored habit carries exactly this name (case-sensitive). */
  predicate NameTaken(habits: map<int, Habit>, name: Option<string>) {
    exists k :: k in habits && habits[k].name == name
  }

  /** Some stored habit whose id differs from `id` carries exactly this name. */
  predicate NameTakenByOther(habits: map<int, Habit>, id: int, name: Option<string>) {
    exists k :: k in habits && habits[k].id != id && habits[k].name == name
  }

  /** Every stored habit sits under its own id. */
  predicate KeysMatchIds(habits: map<int, Habit>) {
    forall k :: k in habits ==> habits[k].id == k
  }

  /** No two stored habits share a name. */
  predicate NamesDistinct(habits: map<int, Habit>) {
    forall k1, k2 :: k1 in habits && k2 in habits && k1 != k2 ==> habits[k1].name != habits[k2].name
  }

  /** The invariant of the store under sequential use: keys are the records' ids,
      every key was issued by the counter (which starts at 1), every name is
      present and not blank, and names are pairwise distinct. */
  predicate Invariant(s: Store) {
    && 1 <= s.nextId
    && KeysMatchIds(s.habits)
    && (forall k :: k in s.habits ==> 1 <= k < s.nextId)
    && (forall k :: k in s.habits ==> ValidName(s.habits[k].name))
    && NamesDistinct(s.habits)
  }

  /** Under the invariant, the only habit that can carry the name of the habit
      stored under `id` is that habit itself. */
  lemma OwnNameNotTakenByOther(s: Store, id: int)
    requires Invariant(s) && id in s.habits
    ensures !NameTakenByOther(s.habits, id, s.habits[id].name)
  {
  }
}
