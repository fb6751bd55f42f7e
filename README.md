# Habit tracker store, modelled in Dafny

This project models the in-memory habit store behind the habit tracker's REST
controller (`HabitController`). The controller keeps every habit in a shared
map from id to `Habit` (`STORE`) and issues ids from a counter (`ID_SEQ`, which
starts at 1). On top of that state it offers these operations:

- list all habits sorted by id;
- get one habit by id;
- create a habit: the name must be present and not blank, and no stored habit
  may have exactly that name;
- update a habit: the id must exist, then the name must be valid, then no
  *other* habit may hold the name; a completion day not after today marks it
  completed;
- delete a habit;
- search by a case-insensitive substring of the name;
- `clearStore`, which empties the map and resets the counter.

Layout, one module per file:

- `wrappers.dfy` (`Wrappers`): `Option`, standing for a Java reference that may be null.
- `text.dfy` (`Text`): `String.isBlank`, lower-casing and `String.contains`.
- `habits.dfy` (`Habits`): the `Habit` record, the `Response` outcomes, the
  `Store` (map plus counter) and its `Invariant`. The invariant says:
  - every key is its record's id;
  - every key is in `[1, nextId)`;
  - every name is present and not blank;
  - names are pairwise distinct.
- `queries.dfy` (`HabitQueries`): `getAll`, `getById` and `searchByName`. Each
  is a function of the map and changes nothing.
- `store_spec.dfy` (`StoreSpec`): the state-changing operations as functions.
  Each maps the store before a call to the response and the store after it.
  The same file holds the lemmas about sequences of calls, `Run`.
- `controller.dfy` (`Controller`): the class `HabitController`. Its fields
  `store` and `idSeq` are the map and the counter. Each method that changes
  them is proved to produce exactly the response and the store that the
  matching `StoreSpec` function gives, and to keep the invariant. The two
  duplicate-name scans are loops over the stored keys.
- `scenarios.dfy` (`Scenarios`): concrete runs of the store. Most follow a
  case of the controller's test suite; two more exercise the update rules
  (a completion day before today, and a rename onto another habit's name).

Outcomes are labels: `Ok` (200), `Created` (201), `NoContent` (204),
`NotFound` (404), `BadRequest` (400), `Conflict` (409). Days are integers, and
the current day is a parameter, `today`.

## Model

| member | source | states |
|---|---|---|
| Text.IsWhitespace | src/main/java/edu/trincoll/tracker/HabitController.java:46 | the characters `isBlank` treats as white space: those of `Character.isWhitespace` |
| Text.IsBlank | src/main/java/edu/trincoll/tracker/HabitController.java:46 | a string is blank when it is empty or made only of white space |
| Text.Lower | src/main/java/edu/trincoll/tracker/HabitController.java:117-119 | the result has the input's length; each upper-case ASCII letter becomes its lower-case letter, every other character stays as it is |
| Text.LowerIdempotent | src/main/java/edu/trincoll/tracker/HabitController.java:117-119 | lower-casing an already lower-cased string changes nothing |
| Text.ContainsIff | src/main/java/edu/trincoll/tracker/HabitController.java:119 | `contains` holds exactly when the query occurs at some position of the name |
| Text.ContainsEmpty | src/main/java/edu/trincoll/tracker/HabitController.java:119 | every name contains the empty query |
| HabitQueries.Least | src/main/java/edu/trincoll/tracker/HabitController.java:28-30 | every non-empty set of ids has a least element; `SortedKeys` puts it first |
| HabitQueries.SortedKeys | src/main/java/edu/trincoll/tracker/HabitController.java:28-30 | lists every key of the set exactly once, in strictly ascending order |
| HabitQueries.PrependLeast | src/main/java/edu/trincoll/tracker/HabitController.java:28-30 | the least key followed by the sorted rest is the sorted whole |
| HabitQueries.GetAll | src/main/java/edu/trincoll/tracker/HabitController.java:27-32 | as many habits as are stored, each a stored habit, every stored habit present; ids strictly ascending when keys are ids |
| HabitQueries.ListingFacts | src/main/java/edu/trincoll/tracker/HabitController.java:28-30 | reading the habits under ascending keys gives every stored habit, in id order |
| HabitQueries.GetById | src/main/java/edu/trincoll/tracker/HabitController.java:36-41 | `Ok` exactly when the id is stored, with the stored habit, whose id is the requested one under the invariant; `NotFound` otherwise |
| HabitQueries.Matches | src/main/java/edu/trincoll/tracker/HabitController.java:119 | the filter: the name is present and, lower-cased, contains the lower-cased query |
| HabitQueries.MatchesIff | src/main/java/edu/trincoll/tracker/HabitController.java:119 | the filter holds exactly when the name is present and the lower-cased query occurs at some position of the lower-cased name |
| HabitQueries.Filtered | src/main/java/edu/trincoll/tracker/HabitController.java:118-119 | a key is kept exactly when its habit's name is present and has the lower-cased query at some position of the lower-cased name; kept habits are unchanged |
| HabitQueries.SearchByName | src/main/java/edu/trincoll/tracker/HabitController.java:113-123 | `BadRequest` exactly when the query is absent; otherwise every result is a stored habit whose lower-cased name has the lower-cased query at some position, every such stored habit is a result, and ids ascend strictly when keys are ids |
| HabitQueries.EmptyQueryReturnsAll | src/main/java/edu/trincoll/tracker/HabitController.java:114-121 | under the invariant, the empty query returns the same list as `getAll` |
| HabitQueries.SearchIgnoresQueryCase | src/main/java/edu/trincoll/tracker/HabitController.java:117-119 | searching for a query and for its lower-cased form give the same answer |
| Habits.ValidName | src/main/java/edu/trincoll/tracker/HabitController.java:46 | a name passes validation when it is present and not blank (the same test at :79) |
| Habits.NameTaken | src/main/java/edu/trincoll/tracker/HabitController.java:49-50 | some stored habit has exactly this name |
| Habits.NameTakenByOther | src/main/java/edu/trincoll/tracker/HabitController.java:82-84 | some stored habit whose record id differs from `id` has exactly this name |
| Habits.OwnNameNotTakenByOther | src/main/java/edu/trincoll/tracker/HabitController.java:82-84 | under the invariant, no habit other than the one under `id` holds that habit's name |
| StoreSpec.Clear | src/main/java/edu/trincoll/tracker/HabitController.java:20-23 | the cleared store is empty, lists nothing, has its counter at 1 and satisfies the invariant |
| StoreSpec.EffectiveCompleted | src/main/java/edu/trincoll/tracker/HabitController.java:93-96 | the stored flag is true exactly when the payload says completed or carries a completion day not after today |
| StoreSpec.Create | src/main/java/edu/trincoll/tracker/HabitController.java:45-64 | `BadRequest` exactly for an absent or blank name; `Conflict` exactly for a valid name some habit already has; the store is unchanged on both. Otherwise: `Created` with id = old counter, a key that was absent; payload's name, description and flag; counter up by one; other entries unchanged. The invariant is kept |
| StoreSpec.Update | src/main/java/edu/trincoll/tracker/HabitController.java:74-100 | `NotFound` exactly for a missing id, whatever the payload; then `BadRequest` for an invalid name; then `Conflict` when a habit with another id has the name; the store is unchanged on all three. Otherwise: `Ok` with the same key and id, the payload's name and description, the effective completed flag and the old `lastCompleted`; other entries and the counter unchanged. The invariant is kept |
| StoreSpec.Delete | src/main/java/edu/trincoll/tracker/HabitController.java:104-109 | `NoContent` exactly when the id was stored, `NotFound` otherwise; exactly that key is removed, other entries and the counter are unchanged, and the invariant is kept |
| StoreSpec.RunKeepsInvariant | src/main/java/edu/trincoll/tracker/HabitController.java:45-109 | any sequence of creates, updates, deletes and clears keeps the invariant |
| StoreSpec.CounterNeverDecreases | src/main/java/edu/trincoll/tracker/HabitController.java:55 | without `clearStore`, the counter never goes back |
| StoreSpec.IdNotReissued | src/main/java/edu/trincoll/tracker/HabitController.java:55-62 | without `clearStore`, an id below the counter that is not stored is never stored again |
| StoreSpec.DeletedStaysGone | src/main/java/edu/trincoll/tracker/HabitController.java:104-109 | after a habit is deleted and any calls other than `clearStore`, `getById` and `delete` of its id report `NotFound` |
| StoreSpec.CreatedIdsIncrease | src/main/java/edu/trincoll/tracker/HabitController.java:55 | of two successful creates with no `clearStore` between, the later has the larger id |
| StoreSpec.RenameToOwnName | src/main/java/edu/trincoll/tracker/HabitController.java:82-87 | updating a stored habit with its own current name succeeds |
| StoreSpec.CreateThenGet | src/main/java/edu/trincoll/tracker/HabitController.java:37-40 | `getById` on the id a create returned gives back the created habit |
| Controller.HabitController.constructor | src/main/java/edu/trincoll/tracker/HabitController.java:16-17 | the store starts empty with the counter at 1, satisfying the invariant |
| Controller.HabitController.ClearStore | src/main/java/edu/trincoll/tracker/HabitController.java:20-23 | empties the map, resets the counter to 1, invariant holds |
| Controller.HabitController.DuplicateName | src/main/java/edu/trincoll/tracker/HabitController.java:49-50 | the scan answers true exactly when some stored habit has this exact name |
| Controller.HabitController.DuplicateNameOfOther | src/main/java/edu/trincoll/tracker/HabitController.java:82-84 | the scan answers true exactly when a stored habit with a different id has this exact name |
| Controller.HabitController.Create | src/main/java/edu/trincoll/tracker/HabitController.java:45-64 | response and new store are those of `StoreSpec.Create` on the old store; invariant kept |
| Controller.HabitController.CreateViaSingular | src/main/java/edu/trincoll/tracker/HabitController.java:67-70 | behaves exactly as `create` |
| Controller.HabitController.Update | src/main/java/edu/trincoll/tracker/HabitController.java:74-100 | response and new store are those of `StoreSpec.Update` on the old store; invariant kept |
| Controller.HabitController.Delete | src/main/java/edu/trincoll/tracker/HabitController.java:104-109 | response and new store are those of `StoreSpec.Delete` on the old store; invariant kept |
| Scenarios.UpdateScenario | src/test/java/edu/trincoll/tracker/ItemControllerTest.java:186-216 | create "Original Name" gets id 1, not completed; updating it to "Updated Name" with a completion day equal to today gives the new name and description, completed, id 1 |
| Scenarios.CreateValidationScenario | src/test/java/edu/trincoll/tracker/ItemControllerTest.java:132-179 | create with a missing or an empty name gives `BadRequest`; a second create with the same name gives `Conflict` |
| Scenarios.UpdateValidationScenario | src/test/java/edu/trincoll/tracker/ItemControllerTest.java:219-257 | update of id 999999 gives `NotFound`; update of a stored habit with an empty name gives `BadRequest` |
| Scenarios.ReadScenario | src/main/java/edu/trincoll/tracker/HabitController.java:89-97 | create "Read" gets id 1, not completed; updating it with a completion day before today gives completed, the new description and id 1 |
| Scenarios.RenameConflictScenario | src/main/java/edu/trincoll/tracker/HabitController.java:82-87 | with "A" and "B" stored, renaming "B" to "A" is a `Conflict` and "B" keeps its name |
| Scenarios.FruitMatches | src/test/java/edu/trincoll/tracker/ItemControllerTest.java:334-340 | "App" matches "Apple" and "Application" and not "Banana" |
| Scenarios.SearchScenario | src/test/java/edu/trincoll/tracker/ItemControllerTest.java:303-340 | after creating "Apple", "Banana" and "Application", searching "App" returns exactly "Apple" (id 1) then "Application" (id 3) |
| Scenarios.DeleteScenario | src/test/java/edu/trincoll/tracker/ItemControllerTest.java:264-289 | deleting a created habit gives `NoContent`; afterwards `getById` and a second `delete` give `NotFound` |

## Left out

- The Spring web layer is not modelled: routing, annotations, `ResponseEntity`, path and query binding, JSON. Outcomes are a datatype, and the HTTP status is only a label.
- Concurrency is not modelled: `ConcurrentHashMap`, `AtomicLong`, and the race between the duplicate scan and `STORE.put`. The model is sequential, which is the only setting where distinct names are guaranteed.
- The wall clock `LocalDate.now()` becomes the parameter `today`, a day number. `isAfter` becomes `>` on day numbers.
- Text.Lower: lower-cases only the ASCII letters `A`-`Z`, not the full Unicode mapping of `toLowerCase(Locale.ROOT)`.
- Text.IsWhitespace follows `Character.isWhitespace` character by character. It is applied to Dafny characters (Unicode scalar values) rather than Java UTF-16 code points.
- StoreSpec.Create: does not model the 64-bit wrap-around of `ID_SEQ` (Java `long`); ids and the counter are unbounded integers.
- The `Habit` class is not part of this model. Its accessors, `completeToday`, `createdAt` and any other fields are left out.
- A freshly constructed `Habit` is assumed to have no `lastCompleted`. The create path never sets that field.
- Java `long` comparison in `Objects.equals(other.getId(), id)` becomes integer equality.
- HabitQueries.GetAll: lists the map's values in key order. The source sorts the values by `getId`. The two coincide when every key is its record's id, which the invariant guarantees. For that reason the ascending-id promise is stated only under `KeysMatchIds`.
- HabitQueries.SearchByName: lists the matching habits in key order, for the same reason as `GetAll`, so its ascending-id promise is also stated only under `KeysMatchIds`.
- A null request body or a null path id is not modelled; the web layer rejects both before the controller runs.
- StoreSpec.IdNotReissued: `clearStore` resets `ID_SEQ` to 1, so ids are reissued after a clear; the lemma holds only for runs without `ClearCmd`.
- In the source, `STORE`, `ID_SEQ` and `clearStore` are `static`, so every controller instance shares one store. In the model each `HabitController` object owns its store. The two agree while there is a single controller, as with Spring's single controller bean.
