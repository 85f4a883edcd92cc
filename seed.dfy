/**
  The ten records the host seeds into a fresh store at start-up, and the
  scenarios they support: five complete records, a name search, completing one
  more record, and a batch with a missing key.
 */
module Seed {
  import opened TodoModel
  import opened TodoTools
  import opened TodoTransitions
  import opened TodoStore

  function Named(id: int, name: string, isComplete: bool): Todo {
    Todo(id, Some(name), isComplete, None)
  }

  /** The seeded records under the keys 1 to 10 a fresh store hands out, in insertion order. */
  function SeedTodos(): (r: seq<Todo>)
    ensures UniqueIds(r)
  {
    [ Named(1, "Go to watch movie", false),
      Named(2, "Get the dog for a walk", true),
      Named(3, "Buy 3 gallons of milk", false),
      Named(4, "Call mom", true),
      Named(5, "Do the laundry", false),
      Named(6, "Finish the book", true),
      Named(7, "Go to the gym", false),
      Named(8, "Buy a new phone", true),
      Named(9, "Get the car fixed", false),
      Named(10, "Go to the supermarket", true) ]
  }

  /** The shape of the seed: keys 1 to 10 in order, every second record complete. */
  ghost predicate SeedShaped(s: seq<Todo>) {
    |s| == 10 && forall i :: 0 <= i < 10 ==> s[i].id == i + 1 && (s[i].isComplete <==> i % 2 == 1)
  }

  lemma SeedIsShaped(s: seq<Todo>)
    requires s == SeedTodos()
    ensures SeedShaped(s)
  {
  }

  /** In a store shaped like the seed, the completed records are those keyed 2, 4, 6, 8 and 10. */
  lemma ShapedCompletedKeys(s: seq<Todo>)
    requires SeedShaped(s)
    ensures Ids(GetCompletedTodos(s)) == {2, 4, 6, 8, 10}
  {
    var r := GetCompletedTodos(s);
    forall x | x in Ids(r) ensures x in {2, 4, 6, 8, 10} {
      var t :| t in r && t.id == x;
      var i :| 0 <= i < |s| && s[i] == t;
    }
    forall x | x in {2, 4, 6, 8, 10} ensures x in Ids(r) {
      assert s[x - 1] in r;
    }
  }

  /** Five seeded records are complete; completing record 1, one of the other five, makes six,
      and completing it again changes nothing. */
  lemma SeedCompleted(s: seq<Todo>)
    requires s == SeedTodos()
    ensures |GetCompletedTodos(s)| == 5
    ensures |GetCompletedTodos(CompleteOp(s, 1).store)| == 6
    ensures CompleteOp(CompleteOp(s, 1).store, 1) == CompleteOp(s, 1)
  {
    var r := GetCompletedTodos(s);
    SeedIsShaped(s);
    ShapedCompletedKeys(s);
    SubseqUniqueIds(r, s);
    UniqueIdsCount(r);
    IndexOfRecord(s, 0);
    CompleteCountsOneMore(s, 1);
    CompleteIdempotent(s, 1);
  }

  /** An occurrence of "gym" in a lower-cased name puts a 'y' and then an 'm' in the name. */
  lemma GymLetters(n: string, i: int)
    requires Text.OccursAt(Text.ToLower(n), "gym", i)
    ensures Text.LowerChar(n[i + 1]) == 'y' && Text.LowerChar(n[i + 2]) == 'm'
  {
    assert Text.ToLower(n)[i..i + 3][1] == Text.ToLower(n)[i + 1];
    assert Text.ToLower(n)[i..i + 3][2] == Text.ToLower(n)[i + 2];
  }

  /** A name without the letter y, or without the letter m, has no "gym" in it. */
  lemma NoGymMissingLetter(n: string)
    requires || (forall j :: 0 <= j < |n| ==> n[j] != 'y' && n[j] != 'Y')
             || (forall j :: 0 <= j < |n| ==> n[j] != 'm' && n[j] != 'M')
    ensures !Text.Contains(Text.ToLower(n), "gym")
  {
    if Text.Contains(Text.ToLower(n), "gym") {
      var i :| 0 <= i <= |n| - 3 && Text.OccursAt(Text.ToLower(n), "gym", i);
      GymLetters(n, i);
    }
  }

  /** A name whose only y ends a leading "Buy" followed by a blank has no "gym" in it. */
  lemma NoGymAfterBuy(a: string, b: string)
    requires a == "Buy" && b != [] && b[0] == ' '
    requires forall j :: 0 <= j < |b| ==> b[j] != 'y' && b[j] != 'Y'
    ensures !Text.Contains(Text.ToLower(a + b), "gym")
  {
    var n := a + b;
    if Text.Contains(Text.ToLower(n), "gym") {
      var i :| 0 <= i <= |n| - 3 && Text.OccursAt(Text.ToLower(n), "gym", i);
      GymLetters(n, i);
    }
  }

  /** Four seeded names lack a y or an m, so none contains "gym". */
  lemma NoGymInFirstNames()
    ensures !Text.Contains(Text.ToLower("Go to watch movie"), "gym")
    ensures !Text.Contains(Text.ToLower("Get the dog for a walk"), "gym")
    ensures !Text.Contains(Text.ToLower("Call mom"), "gym")
    ensures !Text.Contains(Text.ToLower("Do the laundry"), "gym")
  {
    NoGymMissingLetter("Go to watch movie");
    NoGymMissingLetter("Get the dog for a walk");
    NoGymMissingLetter("Call mom");
    NoGymMissingLetter("Do the laundry");
  }

  /** The other five seeded names do not contain "gym" either; in "Buy 3 gallons of milk"
      the only y is followed by a blank. */
  lemma NoGymInOtherNames()
    ensures !Text.Contains(Text.ToLower("Buy 3 gallons of milk"), "gym")
    ensures !Text.Contains(Text.ToLower("Finish the book"), "gym")
    ensures !Text.Contains(Text.ToLower("Buy a new phone"), "gym")
    ensures !Text.Contains(Text.ToLower("Get the car fixed"), "gym")
    ensures !Text.Contains(Text.ToLower("Go to the supermarket"), "gym")
  {
    assert "Buy 3 gallons of milk" == "Buy" + " 3 gallons of milk";
    NoGymAfterBuy("Buy", " 3 gallons of milk");
    NoGymMissingLetter("Finish the book");
    NoGymMissingLetter("Buy a new phone");
    NoGymMissingLetter("Get the car fixed");
    NoGymMissingLetter("Go to the supermarket");
  }

  /** Among the seeded records only "Go to the gym" matches the query "gym". */
  lemma SeedGymMatches(s: seq<Todo>)
    requires s == SeedTodos()
    ensures forall t :: t in s ==> (NameMatches(t, "gym") <==> t == s[6])
  {
    assert Text.ToLower("gym") == "gym";
    assert Text.OccursAt(Text.ToLower("Go to the gym"), "gym", 10);
    NoGymInFirstNames();
    NoGymInOtherNames();
  }

  /** Searching "gym" finds exactly "Go to the gym". */
  lemma SeedSearchGym(s: seq<Todo>)
    requires s == SeedTodos()
    ensures SearchTodosByName(s, "gym") == [s[6]]
  {
    SeedGymMatches(s);
    SearchSingleMatch(s, "gym", 6);
  }

  /** Searching "GYM" finds the same single record: the query's case does not matter. */
  lemma SeedSearchGymUpper(s: seq<Todo>)
    requires s == SeedTodos()
    ensures SearchTodosByName(s, "GYM") == [s[6]]
  {
    SeedSearchGym(s);
    GymCase();
    SearchIgnoresQueryCase(s, "gym", "GYM");
  }

  lemma GymCase()
    ensures Text.EqualsIgnoreCase("gym", "GYM")
  {
    assert Text.ToLower("GYM") == "gym" == Text.ToLower("gym");
  }

  /** A batch naming key 1 and the missing key 9999 updates and answers record 1 only. */
  lemma SeedBatchSkipsMissing(s: seq<Todo>)
    requires s == SeedTodos()
    ensures var b := BatchOp(s, [Named(1, "x", true), Named(9999, "y", true)]);
      && b.response == [Named(1, "x", true)]
      && !TodoExists(b.store, 9999)
  {
    IndexOfRecord(s, 0);
    assert 9999 !in Ids(s) by {
      SeedIsShaped(s);
    }
    BatchHitThenMiss(s, Named(1, "x", true), Named(9999, "y", true));
  }

  /** The store, driven only through its methods' contracts. */
  method StoreScenario()
  {
    var db := new TodoDb();
    var walk := db.AddTodoItem(Todo(0, Some("Get the dog for a walk"), false, None));
    var gym := db.AddTodoItem(Todo(0, Some("Go to the gym"), false, Some("health")));
    assert GetTodoById(db.todos, gym.id) == Ok(gym) && gym.tag == Some("health");

    ghost var before := db.todos;
    var done := db.CompleteTodoItem(walk.id);
    CompleteSpec(before, walk.id, gym.id);
    assert done == Ok(walk.(isComplete := true));

    var renamed := db.UpdateTodoItem(gym.id, Todo(12345, Some("Gym"), true, None));
    assert renamed == Ok(Todo(gym.id, Some("Gym"), true, None));

    before := db.todos;
    var removed := db.DeleteTodoItem(walk.id);
    DeleteSpec(before, walk.id, gym.id);
    assert !TodoExists(db.todos, walk.id);
    var again := db.DeleteTodoItem(walk.id);
    assert again == NotFound;
  }
}
