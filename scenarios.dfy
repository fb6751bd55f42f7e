/**
 Concrete runs of the store, each starting from a cleared store: the cases of
 the controller's test suite, and two further runs of the update rules.
 */
module Scenarios {
  import opened Wrappers
  import opened Text
  import opened Habits
  import opened HabitQueries
  import opened StoreSpec

  function Payload(name: string, description: string): Habit {
    Habit(0, Some(name), Some(description), false, None)
  }

  /** Create "Original Name", then update it to "Updated Name" with the payload
      completed today (`completeToday`): the habit is renamed, its description
      changes, it becomes completed and its id stays 1. A completion day equal
      to today is not after today. */
  lemma UpdateScenario(today: int)
    ensures
      var c := Create(Clear(), Payload("Original Name", "Original Description"));
      && c.response == Created(Habit(1, Some("Original Name"), Some("Original Description"), false, None))
      && Update(c.after, 1, Payload("Updated Name", "Updated Description").(lastCompleted := Some(today)), today).response
         == Ok(Habit(1, Some("Updated Name"), Some("Updated Description"), true, None))
  {
    assert !IsWhitespace("Original Name"[0]) && !IsWhitespace("Updated Name"[0]);
    var c := Create(Clear(), Payload("Original Name", "Original Description"));
    assert c.after.habits.Keys == {1};
    assert !NameTakenByOther(c.after.habits, 1, Some("Updated Name"));
  }

  /** Create rejects a missing name and a blank name with BadRequest, and a
      second habit with the same name with Conflict. */
  lemma CreateValidationScenario()
    ensures Create(Clear(), Habit(0, None, Some("No name provided"), false, None)).response == BadRequest
    ensures Create(Clear(), Payload("", "Valid Description")).response == BadRequest
    ensures
      var s := Create(Clear(), Payload("Unique Name", "First Description")).after;
      Create(s, Payload("Unique Name", "Different Description")).response == Conflict
  {
    assert !IsWhitespace("Unique Name"[0]);
    var s := Create(Clear(), Payload("Unique Name", "First Description")).after;
    assert s.habits[1].name == Some("Unique Name");
  }

  /** Update of an id that was never issued is NotFound; update of a stored
      habit with an empty name is BadRequest. */
  lemma UpdateValidationScenario(today: int)
    ensures
      var s := Create(Clear(), Payload("Original Name", "Original Description")).after;
      && Update(Clear(), 999999, Payload("Update Name", "Update Description"), today).response == NotFound
      && Update(s, 1, Payload("", "Valid Description"), today).response == BadRequest
  {
    assert !IsWhitespace("Original Name"[0]);
  }

  /** Create "Read", then update it with a completion day before today: the
      habit becomes completed, its description changes and its id stays 1. */
  lemma ReadScenario(today: int)
    ensures
      var c := Create(Clear(), Payload("Read", "Read 10 pages"));
      && c.response == Created(Habit(1, Some("Read"), Some("Read 10 pages"), false, None))
      && Update(c.after, 1, Payload("Read", "Read 20 pages").(lastCompleted := Some(today - 1)), today).response
         == Ok(Habit(1, Some("Read"), Some("Read 20 pages"), true, None))
  {
    assert !IsWhitespace("Read"[0]);
    var c := Create(Clear(), Payload("Read", "Read 10 pages"));
    RenameToOwnName(c.after, 1, Payload("Read", "Read 20 pages").(lastCompleted := Some(today - 1)), today);
  }

  /** Create "A" and "B", then try to rename "B" to "A": Conflict, and "B" keeps
      its name. */
  lemma RenameConflictScenario(today: int)
    ensures
      var s := Create(Create(Clear(), Payload("A", "")).after, Payload("B", "")).after;
      var u := Update(s, 2, Payload("A", ""), today);
      && u.response == Conflict
      && GetById(u.after.habits, 2) == Ok(Habit(2, Some("B"), Some(""), false, None))
  {
    assert !IsWhitespace("A"[0]) && !IsWhitespace("B"[0]);
    var s1 := Create(Clear(), Payload("A", "")).after;
    assert !NameTaken(s1.habits, Some("B"));
    var s := Create(s1, Payload("B", "")).after;
    assert s.habits[1].id != 2 && s.habits[1].name == Some("A");
  }

  function Apple(): Habit { Habit(1, Some("Apple"), Some("Red fruit"), false, None) }
  function Banana(): Habit { Habit(2, Some("Banana"), Some("Yellow fruit"), false, None) }
  function Application(): Habit { Habit(3, Some("Application"), Some("Software"), false, None) }

  /** A create whose name is valid and free stores the payload under the
      counter and advances it. */
  lemma CreateFresh(s: Store, body: Habit)
    requires ValidName(body.name) && !NameTaken(s.habits, body.name)
    ensures Create(s, body).after
         == Store(s.habits[s.nextId := Habit(s.nextId, body.name, body.description, body.completed, None)], s.nextId + 1)
  {
  }

  /** Creating the three fruit habits in order stores them under ids 1, 2, 3. */
  lemma FruitStore()
    ensures
      var s1 := Create(Clear(), Payload("Apple", "Red fruit")).after;
      var s2 := Create(s1, Payload("Banana", "Yellow fruit")).after;
      Create(s2, Payload("Application", "Software")).after.habits
        == map[1 := Apple(), 2 := Banana(), 3 := Application()]
  {
    assert !IsWhitespace("Apple"[0]) && !IsWhitespace("Banana"[0]) && !IsWhitespace("Application"[0]);
    CreateFresh(Clear(), Payload("Apple", "Red fruit"));
    var s1 := Store(map[1 := Apple()], 2);
    assert !NameTaken(s1.habits, Some("Banana"));
    CreateFresh(s1, Payload("Banana", "Yellow fruit"));
    var s2 := Store(map[1 := Apple(), 2 := Banana()], 3);
    assert !NameTaken(s2.habits, Some("Application"));
    CreateFresh(s2, Payload("Application", "Software"));
  }

  /** "App" matches "Apple" and "Application" but not "Banana". */
  lemma FruitMatches()
    ensures Matches(Apple(), "App") && Matches(Application(), "App") && !Matches(Banana(), "App")
  {
    assert Lower("App") == "app";
    assert Lower("Apple") == "apple";
    assert Lower("Application") == "application";
    assert Lower("Banana") == "banana";
    assert "app" <= "apple";
    assert "app" <= "application";
    assert !Contains("", "app");
    assert "a"[1..] == "" && !Contains("a", "app");
    assert "na"[1..] == "a" && !Contains("na", "app");
    assert "ana"[1] != "app"[1];
    assert "ana"[1..] == "na" && !Contains("ana", "app");
    assert "nana"[1..] == "ana" && !Contains("nana", "app");
    assert "anana"[1] != "app"[1];
    assert "anana"[1..] == "nana" && !Contains("anana", "app");
    assert "banana"[0] != "app"[0];
    assert "banana"[1..] == "anana" && !Contains("banana", "app");
  }

  /** Searching the fruit store for "App" lists exactly "Apple" and
      "Application", in id order. */
  lemma SearchScenario()
    ensures
      var s1 := Create(Clear(), Payload("Apple", "Red fruit")).after;
      var s2 := Create(s1, Payload("Banana", "Yellow fruit")).after;
      var s3 := Create(s2, Payload("Application", "Software")).after;
      SearchByName(s3.habits, Some("App")) == Ok([Apple(), Application()])
  {
    FruitStore();
    FruitFilter();
    ListTwo(Apple(), Application());
  }

  /** The filter for "App" keeps ids 1 and 3 of the fruit store. */
  lemma FruitFilter()
    ensures Filtered(map[1 := Apple(), 2 := Banana(), 3 := Application()], "App")
         == map[1 := Apple(), 3 := Application()]
  {
    FruitMatches();
    var habits := map[1 := Apple(), 2 := Banana(), 3 := Application()];
    FilteredByMatches(habits, "App");
    var m := Filtered(habits, "App");
    assert 1 in m && 3 in m && 2 !in m;
    assert m.Keys == {1, 3};
  }

  /** Two keys are listed in ascending order. */
  lemma SortedPair(x: int, y: int)
    requires x < y
    ensures SortedKeys({x, y}) == [x, y]
  {
    var r := SortedKeys({x, y});
    assert |{x, y}| == 2;
    assert r[0] in {x, y} && r[1] in {x, y} && r[0] < r[1];
  }

  /** Two habits stored under their ids are listed in id order. */
  lemma ListTwo(a: Habit, b: Habit)
    requires a.id < b.id
    ensures GetAll(map[a.id := a, b.id := b]) == [a, b]
  {
    var m := map[a.id := a, b.id := b];
    assert m.Keys == {a.id, b.id};
    SortedPair(a.id, b.id);
    assert HabitsAt(m, [a.id, b.id]) == [a, b];
  }

  /** Create a habit and delete it: NoContent; then `getById` and a second
      `delete` both report NotFound. */
  lemma DeleteScenario()
    ensures
      var c := Create(Clear(), Payload("Delete Me", "To Be Deleted"));
      var d := Delete(c.after, 1);
      && c.response.Created? && c.response.body.id == 1
      && d.response == NoContent
      && GetById(d.after.habits, 1) == NotFound
      && Delete(d.after, 1).response == NotFound
  {
    assert !IsWhitespace("Delete Me"[0]);
  }
}
