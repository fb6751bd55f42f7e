/**
 The read-only operations of the controller: listing, lookup by id and search
 by name. Each is a function of the stored map and changes nothing.
 */
module HabitQueries {
  import opened Wrappers
  import opened Text
  import opened Habits

  /** `m` is the least element of `ks`. */
  predicate IsLeast(m: int, ks: set<int>) {
    m in ks && forall x :: x in ks ==> m <= x
  }

  /** A non-empty finite set of integers has a least element. */
  lemma {:induction false} Least(ks: set<int>) returns (m: int)
    requires ks != {}
    ensures IsLeast(m, ks)
    decreases ks
  {
    assert (forall x :: x !in ks) ==> ks == {};
    var y :| y in ks;
    var rest := ks - {y};
    if rest == {} {
      m := y;
      forall x | x in ks ensures y <= x {
        assert x !in rest;
      }
    } else {
      var r := Least(rest);
      m := if y < r then y else r;
      forall x | x in ks ensures m <= x {
        if x != y { assert x in rest; }
      }
    }
  }

  lemma LeastExists(ks: set<int>)
    requires ks != {}
    ensures exists m :: IsLeast(m, ks)
  {
    var m := Least(ks);
  }

  /** The keys of a map in ascending order. */
  function SortedKeys(ks: set<int>): (r: seq<int>)
    ensures |r| == |ks|
    ensures forall i :: 0 <= i < |r| ==> r[i] in ks
    ensures forall k :: k in ks ==> k in r
    ensures forall i, j :: 0 <= i < j < |r| ==> r[i] < r[j]
    decreases ks
  {
    if ks == {} then []
    else
      LeastExists(ks);
      var m :| IsLeast(m, ks);
      var rest := SortedKeys(ks - {m});
      PrependLeast(m, ks, rest);
      [m] + rest
  }

  /** Putting the least key in front of the ascending listing of the others
      gives the ascending listing of all. */
  lemma PrependLeast(m: int, ks: set<int>, rest: seq<int>)
    requires IsLeast(m, ks)
    requires |rest| == |ks - {m}|
    requires forall i :: 0 <= i < |rest| ==> rest[i] in ks - {m}
    requires forall k :: k in ks - {m} ==> k in rest
    requires forall i, j :: 0 <= i < j < |rest| ==> rest[i] < rest[j]
    ensures |[m] + rest| == |ks|
    ensures forall i :: 0 <= i < |[m] + rest| ==> ([m] + rest)[i] in ks
    ensures forall k :: k in ks ==> k in [m] + rest
    ensures forall i, j :: 0 <= i < j < |[m] + rest| ==> ([m] + rest)[i] < ([m] + rest)[j]
  {
    var r := [m] + rest;
    forall i | 0 <= i < |r| ensures r[i] in ks {
      if i > 0 { assert r[i] == rest[i - 1]; }
    }
    forall k | k in ks ensures k in r {
      if k != m { assert k in rest; }
    }
    forall i, j | 0 <= i < j < |r| ensures r[i] < r[j] {
      assert r[j] == rest[j - 1];
      if i > 0 { assert r[i] == rest[i - 1]; }
      else { assert rest[j - 1] in ks - {m}; }
    }
  }

  /** `getAll`: the stored habits sorted by id. The result holds every stored
      habit once; when each habit sits under its own id, the ids ascend strictly. */
  function GetAll(habits: map<int, Habit>): (r: seq<Habit>)
    ensures |r| == |habits|
    ensures forall i :: 0 <= i < |r| ==> r[i] in habits.Values
    ensures forall k :: k in habits ==> habits[k] in r
    ensures KeysMatchIds(habits) ==> forall i, j :: 0 <= i < j < |r| ==> r[i].id < r[j].id
  {
    var keys := SortedKeys(habits.Keys);
    var r := HabitsAt(habits, keys);
    ListingFacts(habits, keys, r);
    r
  }

  /** The habits stored under the given keys, in the keys' order. */
  function HabitsAt(habits: map<int, Habit>, keys: seq<int>): (r: seq<Habit>)
    requires forall i :: 0 <= i < |keys| ==> keys[i] in habits
    ensures |r| == |keys|
    ensures forall i :: 0 <= i < |keys| ==> r[i] == habits[keys[i]]
    decreases |keys|
  {
    if keys == [] then [] else [habits[keys[0]]] + HabitsAt(habits, keys[1..])
  }

  /** The habits stored under a list of distinct, ascending keys that covers
      the map hold every stored habit, and ascend by id when keys are ids. */
  lemma ListingFacts(habits: map<int, Habit>, keys: seq<int>, r: seq<Habit>)
    requires forall k :: k in habits ==> k in keys
    requires forall i, j :: 0 <= i < j < |keys| ==> keys[i] < keys[j]
    requires |r| == |keys|
    requires forall i :: 0 <= i < |keys| ==> keys[i] in habits && r[i] == habits[keys[i]]
    ensures forall i :: 0 <= i < |r| ==> r[i] in habits.Values
    ensures forall k :: k in habits ==> habits[k] in r
    ensures KeysMatchIds(habits) ==> forall i, j :: 0 <= i < j < |r| ==> r[i].id < r[j].id
  {
    forall i | 0 <= i < |r| ensures r[i] in habits.Values {
      assert habits[keys[i]] in habits.Values;
    }
    forall k | k in habits ensures habits[k] in r {
      var i :| 0 <= i < |keys| && keys[i] == k;
      assert r[i] == habits[k];
    }
    if KeysMatchIds(habits) {
      forall i, j | 0 <= i < j < |r| ensures r[i].id < r[j].id {
        assert r[i].id == keys[i] && r[j].id == keys[j];
      }
    }
  }

  /** `getById`: the habit stored under `id`, or NotFound. */
  function GetById(habits: map<int, Habit>, id: int): (r: Response<Habit>)
    ensures r.Ok? || r == NotFound
    ensures r.Ok? <==> id in habits
    ensures r.Ok? ==> r.body == habits[id]
    ensures r.Ok? && KeysMatchIds(habits) ==> r.body.id == id
  {
    if id in habits then Ok(habits[id]) else NotFound
  }

  /** The search filter: a name is present and, lower-cased, contains the
      lower-cased query. */
  predicate Matches(h: Habit, query: string) {
    h.name.Some? && Contains(Lower(h.name.value), Lower(query))
  }

  /** A habit matches exactly when its name is present and the lower-cased
      query occurs at some position of the lower-cased name. */
  lemma MatchesIff(h: Habit, query: string)
    ensures Matches(h, query) <==>
      h.name.Some? && exists i :: OccursAt(Lower(h.name.value), Lower(query), i)
  {
    if h.name.Some? {
      ContainsIff(Lower(h.name.value), Lower(query));
    }
  }

  /** The stored habits that match the query, under their keys: a key is kept
      exactly when its habit's lower-cased name has the lower-cased query at
      some position, and its habit is kept unchanged. */
  function Filtered(habits: map<int, Habit>, query: string): (m: map<int, Habit>)
    ensures forall k :: k in m <==>
      k in habits && habits[k].name.Some? &&
      exists i :: OccursAt(Lower(habits[k].name.value), Lower(query), i)
    ensures forall k :: k in m ==> m[k] == habits[k]
  {
    var m := map k | k in habits && Matches(habits[k], query) :: habits[k];
    FilteredFacts(habits, query, m);
    m
  }

  /** The filter keeps exactly the stored keys whose habit matches. */
  lemma FilteredByMatches(habits: map<int, Habit>, query: string)
    ensures forall k :: k in Filtered(habits, query) <==> k in habits && Matches(habits[k], query)
    ensures forall k :: k in Filtered(habits, query) ==> Filtered(habits, query)[k] == habits[k]
  {
    forall k | k in habits {
      MatchesIff(habits[k], query);
    }
  }

  lemma FilteredFacts(habits: map<int, Habit>, query: string, m: map<int, Habit>)
    requires m == map k | k in habits && Matches(habits[k], query) :: habits[k]
    ensures forall k :: k in m <==>
      k in habits && habits[k].name.Some? &&
      exists i :: OccursAt(Lower(habits[k].name.value), Lower(query), i)
  {
    forall k | k in habits {
      MatchesIff(habits[k], query);
    }
  }

  /** `searchByName`: BadRequest without a query; otherwise exactly the stored
      habits whose name matches, sorted by id. */
  function SearchByName(habits: map<int, Habit>, query: Option<string>): (r: Response<seq<Habit>>)
    ensures r.Ok? || r == BadRequest
    ensures r == BadRequest <==> query.None?
    ensures query.Some? ==> forall i :: 0 <= i < |r.body| ==>
      && r.body[i] in habits.Values
      && r.body[i].name.Some?
      && exists j :: OccursAt(Lower(r.body[i].name.value), Lower(query.value), j)
    ensures query.Some? ==> forall k ::
      (&& k in habits && habits[k].name.Some?
       && exists j :: OccursAt(Lower(habits[k].name.value), Lower(query.value), j))
      ==> habits[k] in r.body
    ensures query.Some? && KeysMatchIds(habits) ==>
      forall i, j :: 0 <= i < j < |r.body| ==> r.body[i].id < r.body[j].id
  {
    if query.None? then BadRequest
    else
      SearchFacts(habits, query.value);
      Ok(GetAll(Filtered(habits, query.value)))
  }

  /** Listing the filtered map gives exactly the stored habits that match. */
  lemma SearchFacts(habits: map<int, Habit>, query: string)
    ensures
      var r := GetAll(Filtered(habits, query));
      && (forall i :: 0 <= i < |r| ==>
           && r[i] in habits.Values
           && r[i].name.Some?
           && exists j :: OccursAt(Lower(r[i].name.value), Lower(query), j))
      && (forall k ::
           (&& k in habits && habits[k].name.Some?
            && exists j :: OccursAt(Lower(habits[k].name.value), Lower(query), j))
           ==> habits[k] in r)
  {
    var m := Filtered(habits, query);
    var r := GetAll(m);
    forall i | 0 <= i < |r|
      ensures r[i] in habits.Values && r[i].name.Some?
      ensures exists j :: OccursAt(Lower(r[i].name.value), Lower(query), j)
    {
      assert r[i] in m.Values;
      var k :| k in m && m[k] == r[i];
      assert habits[k] == r[i];
    }
    forall k | k in habits && habits[k].name.Some? &&
               exists j :: OccursAt(Lower(habits[k].name.value), Lower(query), j)
      ensures habits[k] in r
    {
      assert k in m;
    }
  }

  /** An empty query lists every habit whose name is present; under the store
      invariant that is every habit, in the order `getAll` gives. */
  lemma EmptyQueryReturnsAll(s: Store)
    requires Invariant(s)
    ensures SearchByName(s.habits, Some("")) == Ok(GetAll(s.habits))
  {
    assert Lower("") == "";
    forall k | k in s.habits ensures Matches(s.habits[k], "") {
      ContainsEmpty(Lower(s.habits[k].name.value));
    }
    assert Filtered(s.habits, "") == s.habits;
  }

  /** The search ignores the ASCII case of the query. */
  lemma {:induction false} SearchIgnoresQueryCase(habits: map<int, Habit>, q: string)
    ensures SearchByName(habits, Some(q)) == SearchByName(habits, Some(Lower(q)))
  {
    LowerIdempotent(q);
    forall k | k in habits ensures Matches(habits[k], q) == Matches(habits[k], Lower(q)) {
    }
    assert Filtered(habits, q) == Filtered(habits, Lower(q));
  }
}
