/**
  The mutating operations of `TodoTools` as functions from the store's records
  before the call to the response and the records after it (the save is folded
  into the step). The methods of `TodoStore.TodoDb` are proved to take exactly
  these steps; the lemmas here state what each step promises.
 */
module TodoTransitions {
  import opened TodoModel
  import opened TodoTools

  /** What an operation answers, and the store's records once it has been saved. */
  datatype Step<R> = Step(response: R, store: seq<Todo>)

  /** The fields `UpdateTodoItem` copies from its input: name, completion and tag. */
  function Overwritten(t: Todo, input: Todo): (r: Todo)
    ensures r.id == t.id
    ensures r.name == input.name && r.isComplete == input.isComplete && r.tag == input.tag
  {
    t.(name := input.name, isComplete := input.isComplete, tag := input.tag)
  }

  /** The fields `BatchUpdateTodoItems` copies from an input: name and completion, not the tag. */
  function BatchOverwritten(t: Todo, input: Todo): (r: Todo)
    ensures r.id == t.id && r.tag == t.tag
    ensures r.name == input.name && r.isComplete == input.isComplete
  {
    t.(name := input.name, isComplete := input.isComplete)
  }

  /** The record with its completion flag set. */
  function Completed(t: Todo): (r: Todo)
    ensures r.isComplete
    ensures r.id == t.id && r.name == t.name && r.tag == t.tag
  {
    t.(isComplete := true)
  }

  /** The store with the record keyed `rec.id` replaced by `rec`, every other record kept in place. */
  function Replace(todos: seq<Todo>, rec: Todo): (r: seq<Todo>)
    ensures |r| == |todos|
    ensures forall i :: 0 <= i < |todos| ==> r[i].id == todos[i].id
    ensures forall i :: 0 <= i < |todos| && r[i] != todos[i] ==> r[i] == rec
    ensures forall i :: 0 <= i < |todos| && todos[i].id == rec.id ==> r[i] == rec
  {
    seq(|todos|, i requires 0 <= i < |todos| => if todos[i].id == rec.id then rec else todos[i])
  }

  /** The store without the record keyed `id`. */
  function Without(todos: seq<Todo>, id: int): (r: seq<Todo>)
    ensures forall t :: t in r <==> t in todos && t.id != id
    ensures IsSubseq(r, todos)
  {
    Where(todos, (t: Todo) => t.id != id)
  }

  /** `AddTodoItem`: the input, under the fresh key, is appended and returned. */
  function AddOp(todos: seq<Todo>, freshId: int, input: Todo): (s: Step<Todo>)
    ensures s.store == todos + [s.response]
    ensures s.response.id == freshId
    ensures s.response.name == input.name && s.response.isComplete == input.isComplete
    ensures s.response.tag == input.tag
  {
    var t := input.(id := freshId);
    Step(t, todos + [t])
  }

  /** `UpdateTodoItem`. */
  function UpdateOp(todos: seq<Todo>, id: int, input: Todo): (s: Step<Result<Todo>>)
    ensures s.response.Ok? <==> id in Ids(todos)
    ensures s.response.NotFound? ==> s.store == todos
    ensures |s.store| == |todos|
  {
    match GetTodoById(todos, id)
    case NotFound => Step(NotFound, todos)
    case Ok(t) => Step(Ok(Overwritten(t, input)), Replace(todos, Overwritten(t, input)))
  }

  /** One pass of the batch loop: a found input overwrites its record, a missing one is skipped. */
  function BatchStep(todos: seq<Todo>, input: Todo): (r: seq<Todo>)
    ensures |r| == |todos|
    ensures input.id !in Ids(todos) ==> r == todos
  {
    match GetTodoById(todos, input.id)
    case NotFound => todos
    case Ok(t) => Replace(todos, BatchOverwritten(t, input))
  }

  /** The store after the batch loop has visited `inputs` in order. */
  function BatchStore(todos: seq<Todo>, inputs: seq<Todo>): (r: seq<Todo>)
    ensures |r| == |todos|
    decreases |inputs|
  {
    if inputs == [] then todos
    else BatchStep(BatchStore(todos, inputs[..|inputs| - 1]), inputs[|inputs| - 1])
  }

  /** The keys of a sequence of records, position by position. */
  function KeysOf(ts: seq<Todo>): (ks: seq<int>)
    ensures |ks| == |ts|
    ensures forall i :: 0 <= i < |ts| ==> ks[i] == ts[i].id
  {
    seq(|ts|, i requires 0 <= i < |ts| => ts[i].id)
  }

  /** The keys of a sequence with one more record at the end. */
  lemma KeysOfSnoc(ts: seq<Todo>, x: Todo)
    ensures KeysOf(ts + [x]) == KeysOf(ts) + [x.id]
  {
  }

  /** The test the batch loop applies to an input: is its key stored? */
  ghost function Stored(todos: seq<Todo>): Todo -> bool {
    (x: Todo) => x.id in Ids(todos)
  }

  /** The keys of the inputs the batch loop finds, in input order (repeats kept). */
  function BatchHits(todos: seq<Todo>, inputs: seq<Todo>): (hits: seq<int>)
    ensures forall k :: k in hits <==> k in Ids(todos) && exists j :: 0 <= j < |inputs| && inputs[j].id == k
    ensures |hits| <= |inputs|
    decreases |inputs|
  {
    if inputs == [] then []
    else
      var last := inputs[|inputs| - 1];
      var front := inputs[..|inputs| - 1];
      var earlier := BatchHits(todos, front);
      assert forall j :: 0 <= j < |front| ==> front[j] == inputs[j];
      if TodoExists(todos, last.id) then earlier + [last.id] else earlier
  }

  /** The batch collects exactly the keys of the inputs whose key is stored, one per such input,
      in input order: the keys of the inputs filtered by the loop's test. */
  lemma {:induction false} BatchHitsInInputOrder(todos: seq<Todo>, inputs: seq<Todo>)
    ensures BatchHits(todos, inputs) == KeysOf(Where(inputs, Stored(todos)))
    decreases |inputs|
  {
    if inputs != [] {
      var last := inputs[|inputs| - 1];
      var front := inputs[..|inputs| - 1];
      assert inputs == front + [last];
      BatchHitsInInputOrder(todos, front);
      WhereSnoc(front, last, Stored(todos));
      KeysOfSnoc(Where(front, Stored(todos)), last);
    }
  }

  /** The records stored under `ids`, one per entry. */
  function RecordsOf(todos: seq<Todo>, ids: seq<int>): (r: seq<Todo>)
    requires forall k :: k in ids ==> k in Ids(todos)
    ensures |r| == |ids|
    ensures forall i :: 0 <= i < |ids| ==> r[i] in todos && r[i].id == ids[i]
  {
    seq(|ids|, i requires 0 <= i < |ids| => GetTodoById(todos, ids[i]).value)
  }

  /** `BatchUpdateTodoItems`. The accumulated list holds the tracked records themselves,
      so each entry shows its record as it is after the whole batch has been saved. */
  function BatchOp(todos: seq<Todo>, inputs: seq<Todo>): (s: Step<seq<Todo>>)
    ensures |s.response| <= |inputs|
    ensures |s.store| == |todos|
  {
    var store := BatchStore(todos, inputs);
    BatchKeepsKeys(todos, inputs);
    Step(RecordsOf(store, BatchHits(todos, inputs)), store)
  }

  /** `DeleteTodoItem`: the record keyed `id` is answered and removed. */
  function DeleteOp(todos: seq<Todo>, id: int): (s: Step<Result<Todo>>)
    ensures s.response.Ok? <==> id in Ids(todos)
    ensures forall t :: t in s.store <==> t in todos && t.id != id
  {
    Step(GetTodoById(todos, id), Without(todos, id))
  }

  /** `CompleteTodoItem`. */
  function CompleteOp(todos: seq<Todo>, id: int): (s: Step<Result<Todo>>)
    ensures s.response.Ok? <==> id in Ids(todos)
    ensures s.response.Ok? ==> s.response.value.isComplete && s.response.value.id == id
    ensures s.response.NotFound? ==> s.store == todos
    ensures |s.store| == |todos|
  {
    match GetTodoById(todos, id)
    case NotFound => Step(NotFound, todos)
    case Ok(t) => Step(Ok(Completed(t)), Replace(todos, Completed(t)))
  }

  // Replacing one record

  /** Replacing a record keeps the keys and their uniqueness; a lookup of the replaced key
      answers the new record and a lookup of any other key answers what it did before. */
  lemma ReplaceLookup(todos: seq<Todo>, rec: Todo, k: int)
    requires UniqueIds(todos) && rec.id in Ids(todos)
    ensures UniqueIds(Replace(todos, rec))
    ensures Ids(Replace(todos, rec)) == Ids(todos)
    ensures GetTodoById(Replace(todos, rec), k) == if k == rec.id then Ok(rec) else GetTodoById(todos, k)
  {
    var r := Replace(todos, rec);
    var i := IndexOf(todos, rec.id);
    assert forall j :: 0 <= j < |r| ==> r[j].id == todos[j].id;
    assert r == todos[i := rec];
    assert Ids(r) == Ids(todos) by {
      forall x | x in Ids(todos) ensures x in Ids(r) {
        var t :| t in todos && t.id == x;
        var j :| 0 <= j < |todos| && todos[j] == t;
        assert r[j].id == x;
      }
      forall x | x in Ids(r) ensures x in Ids(todos) {
        var t :| t in r && t.id == x;
        var j :| 0 <= j < |r| && r[j] == t;
        assert todos[j].id == x;
      }
    }
    if k == rec.id {
      IndexOfRecord(r, i);
    } else if k in Ids(todos) {
      var j := IndexOf(todos, k);
      assert r[j] == todos[j];
      IndexOfRecord(r, j);
    }
  }

  /** Replacing a record by itself changes nothing. */
  lemma ReplaceUnchanged(todos: seq<Todo>, rec: Todo)
    requires UniqueIds(todos) && GetTodoById(todos, rec.id) == Ok(rec)
    ensures Replace(todos, rec) == todos
  {
    var i := IndexOf(todos, rec.id);
    forall j | 0 <= j < |todos| ensures Replace(todos, rec)[j] == todos[j] {
      if todos[j].id == rec.id {
        assert j == i;
      }
    }
  }

  /** In a store with unique keys, replacing by key is assigning at the record's position. */
  lemma ReplaceAt(todos: seq<Todo>, i: int, rec: Todo)
    requires UniqueIds(todos) && 0 <= i < |todos| && todos[i].id == rec.id
    ensures Replace(todos, rec) == todos[i := rec]
  {
  }

  // Add

  /** Adding under a fresh key keeps the keys unique; the new record is found under its key
      with the input's name, completion and tag, and every other lookup is unchanged. */
  lemma AddThenGet(todos: seq<Todo>, freshId: int, input: Todo, k: int)
    requires UniqueIds(todos) && freshId !in Ids(todos)
    ensures var s := AddOp(todos, freshId, input);
      && UniqueIds(s.store)
      && Ids(s.store) == Ids(todos) + {freshId}
      && s.response.id == freshId
      && s.response.name == input.name
      && s.response.isComplete == input.isComplete
      && s.response.tag == input.tag
      && GetTodoById(s.store, freshId) == Ok(s.response)
      && (k != freshId ==> GetTodoById(s.store, k) == GetTodoById(todos, k))
  {
    var s := AddOp(todos, freshId, input);
    assert forall j :: 0 <= j < |todos| ==> todos[j] in todos;
    assert UniqueIds(s.store);
    assert s.store[|todos|] == s.response;
    IndexOfRecord(s.store, |todos|);
    if k != freshId && k in Ids(todos) {
      var j := IndexOf(todos, k);
      assert s.store[j] == todos[j];
      IndexOfRecord(s.store, j);
    }
  }

  // Update

  /** Updating a missing key answers not-found and leaves the store as it was. */
  lemma UpdateMissing(todos: seq<Todo>, id: int, input: Todo)
    requires id !in Ids(todos)
    ensures UpdateOp(todos, id, input) == Step(NotFound, todos)
  {
  }

  /** Updating a present key sets its name, completion and tag from the input and keeps its key
      (whatever key the input carries); every other record is unchanged. */
  lemma UpdateFound(todos: seq<Todo>, id: int, input: Todo, k: int)
    requires UniqueIds(todos) && id in Ids(todos)
    ensures var s := UpdateOp(todos, id, input);
      && s.response.Ok?
      && s.response.value == Todo(id, input.name, input.isComplete, input.tag)
      && GetTodoById(s.store, id) == s.response
      && (k != id ==> GetTodoById(s.store, k) == GetTodoById(todos, k))
      && UniqueIds(s.store)
      && Ids(s.store) == Ids(todos)
  {
    var t := GetTodoById(todos, id).value;
    ReplaceLookup(todos, Overwritten(t, input), k);
    ReplaceLookup(todos, Overwritten(t, input), id);
  }

  // Batch update

  /** The batch never adds or removes a key, and keeps the keys unique. */
  lemma {:induction false} BatchKeepsKeys(todos: seq<Todo>, inputs: seq<Todo>)
    ensures Ids(BatchStore(todos, inputs)) == Ids(todos)
    ensures UniqueIds(todos) ==> UniqueIds(BatchStore(todos, inputs))
    decreases |inputs|
  {
    if inputs != [] {
      var before := BatchStore(todos, inputs[..|inputs| - 1]);
      var input := inputs[|inputs| - 1];
      BatchKeepsKeys(todos, inputs[..|inputs| - 1]);
      match GetTodoById(before, input.id)
      case NotFound =>
      case Ok(t) =>
        var r := Replace(before, BatchOverwritten(t, input));
        assert forall j :: 0 <= j < |r| ==> r[j].id == before[j].id;
        forall x | x in Ids(before) ensures x in Ids(r) {
          var u :| u in before && u.id == x;
          var j :| 0 <= j < |before| && before[j] == u;
          assert r[j].id == x;
        }
        forall x | x in Ids(r) ensures x in Ids(before) {
          var u :| u in r && u.id == x;
          var j :| 0 <= j < |r| && r[j] == u;
          assert before[j].id == x;
        }
    }
  }

  /** A record whose key no input names comes out of the batch unchanged. */
  lemma {:induction false} BatchUntouched(todos: seq<Todo>, inputs: seq<Todo>, k: int)
    requires UniqueIds(todos)
    requires forall j :: 0 <= j < |inputs| ==> inputs[j].id != k
    ensures GetTodoById(BatchStore(todos, inputs), k) == GetTodoById(todos, k)
    decreases |inputs|
  {
    if inputs != [] {
      var front := inputs[..|inputs| - 1];
      var before := BatchStore(todos, front);
      var input := inputs[|inputs| - 1];
      BatchUntouched(todos, front, k);
      BatchKeepsKeys(todos, front);
      match GetTodoById(before, input.id)
      case NotFound =>
      case Ok(t) =>
        ReplaceLookup(before, BatchOverwritten(t, input), k);
    }
  }

  /** The batch never changes a record's tag, and never its key. */
  lemma {:induction false} BatchKeepsTags(todos: seq<Todo>, inputs: seq<Todo>, k: int)
    requires UniqueIds(todos) && k in Ids(todos)
    ensures GetTodoById(BatchStore(todos, inputs), k).Ok?
    ensures GetTodoById(BatchStore(todos, inputs), k).value.tag == GetTodoById(todos, k).value.tag
    decreases |inputs|
  {
    BatchKeepsKeys(todos, inputs);
    if inputs != [] {
      var front := inputs[..|inputs| - 1];
      var before := BatchStore(todos, front);
      var input := inputs[|inputs| - 1];
      BatchKeepsTags(todos, front, k);
      BatchKeepsKeys(todos, front);
      match GetTodoById(before, input.id)
      case NotFound =>
      case Ok(t) =>
        ReplaceLookup(before, BatchOverwritten(t, input), k);
    }
  }

  /** Last write wins: when input `j` is the last one naming a stored key, that record ends the
      batch with input `j`'s name and completion, its own key and its original tag. */
  lemma {:induction false} BatchLastWriteWins(todos: seq<Todo>, inputs: seq<Todo>, j: int)
    requires UniqueIds(todos) && 0 <= j < |inputs| && inputs[j].id in Ids(todos)
    requires forall m :: j < m < |inputs| ==> inputs[m].id != inputs[j].id
    ensures GetTodoById(BatchStore(todos, inputs), inputs[j].id)
         == Ok(Todo(inputs[j].id, inputs[j].name, inputs[j].isComplete, GetTodoById(todos, inputs[j].id).value.tag))
    decreases |inputs|
  {
    var k := inputs[j].id;
    var front := inputs[..|inputs| - 1];
    var before := BatchStore(todos, front);
    var input := inputs[|inputs| - 1];
    BatchKeepsKeys(todos, front);
    if j == |inputs| - 1 {
      BatchKeepsTags(todos, front, k);
      var t := GetTodoById(before, k).value;
      ReplaceLookup(before, BatchOverwritten(t, input), k);
    } else {
      BatchLastWriteWins(todos, front, j);
      match GetTodoById(before, input.id)
      case NotFound =>
      case Ok(t) =>
        ReplaceLookup(before, BatchOverwritten(t, input), k);
    }
  }

  /** The batch answers one record per input whose key is stored, in input order, each as it
      stands after the batch; inputs with a missing key add nothing to the answer. */
  lemma BatchResponse(todos: seq<Todo>, inputs: seq<Todo>)
    requires UniqueIds(todos)
    ensures var s := BatchOp(todos, inputs);
      var hits := BatchHits(todos, inputs);
      && |s.response| == |hits| <= |inputs|
      && hits == KeysOf(Where(inputs, Stored(todos)))
      && (forall i :: 0 <= i < |hits| ==> GetTodoById(s.store, hits[i]) == Ok(s.response[i]))
      && (forall k :: k in hits <==> k in Ids(todos) && exists j :: 0 <= j < |inputs| && inputs[j].id == k)
  {
    var s := BatchOp(todos, inputs);
    BatchKeepsKeys(todos, inputs);
    BatchHitsInInputOrder(todos, inputs);
    forall i | 0 <= i < |s.response| ensures GetTodoById(s.store, BatchHits(todos, inputs)[i]) == Ok(s.response[i]) {
      GetTodoByIdFindsRecord(s.store, s.response[i]);
    }
  }

  /** The batch answers one record per input whose key is stored, a repeated key each time. */
  lemma BatchAnswerCount(todos: seq<Todo>, inputs: seq<Todo>)
    ensures |BatchOp(todos, inputs).response| == |set j | 0 <= j < |inputs| && inputs[j].id in Ids(todos)|
  {
    BatchHitsInInputOrder(todos, inputs);
    WhereCount(inputs, Stored(todos));
    assert Passing(inputs, Stored(todos)) == set j | 0 <= j < |inputs| && inputs[j].id in Ids(todos);
  }

  /** A batch of a stored key followed by a missing one answers just the stored record, carrying
      the first input's name and completion, and adds no record for the missing key. */
  lemma BatchHitThenMiss(todos: seq<Todo>, hit: Todo, miss: Todo)
    requires UniqueIds(todos) && hit.id in Ids(todos) && miss.id !in Ids(todos)
    ensures var s := BatchOp(todos, [hit, miss]);
      && s.response == [Todo(hit.id, hit.name, hit.isComplete, GetTodoById(todos, hit.id).value.tag)]
      && !TodoExists(s.store, miss.id)
  {
    var inputs := [hit, miss];
    assert inputs[..1] == [hit];
    assert [hit][..0] == [];
    BatchKeepsKeys(todos, [hit]);
    BatchKeepsKeys(todos, inputs);
    assert BatchHits(todos, inputs) == [hit.id];
    BatchLastWriteWins(todos, inputs, 0);
  }

  // Delete

  /** Deleting a present key answers its record and removes exactly that key: the key no longer
      exists and every other lookup is unchanged. Deleting a missing key answers not-found and
      leaves the store as it was. */
  lemma DeleteSpec(todos: seq<Todo>, id: int, k: int)
    requires UniqueIds(todos)
    ensures var s := DeleteOp(todos, id);
      && s.response == GetTodoById(todos, id)
      && !TodoExists(s.store, id)
      && GetTodoById(s.store, id) == NotFound
      && Ids(s.store) == Ids(todos) - {id}
      && UniqueIds(s.store)
      && |s.store| == |Ids(todos) - {id}|
      && (k != id ==> GetTodoById(s.store, k) == GetTodoById(todos, k))
      && (id !in Ids(todos) ==> s == Step(NotFound, todos))
  {
    var r := Without(todos, id);
    SubseqUniqueIds(r, todos);
    UniqueIdsCount(r);
    assert Ids(r) == Ids(todos) - {id};
    if k != id && k in Ids(todos) {
      GetTodoByIdFindsRecord(r, GetTodoById(todos, k).value);
    }
    if id !in Ids(todos) {
      WhereAll(todos, (t: Todo) => t.id != id);
    }
  }

  /** Removing a key other than the first record's keeps the first record in front. */
  lemma WithoutCons(todos: seq<Todo>, id: int)
    requires todos != [] && todos[0].id != id
    ensures Without(todos, id) == [todos[0]] + Without(todos[1..], id)
  {
  }

  /** In a store with unique keys, removing the first record's key leaves the rest. */
  lemma WithoutFirst(todos: seq<Todo>)
    requires UniqueIds(todos) && todos != []
    ensures Without(todos, todos[0].id) == todos[1..]
  {
    IdsSplit(todos);
    WhereAll(todos[1..], (t: Todo) => t.id != todos[0].id);
  }

  /** In a store with unique keys, removing by key is cutting the record out at its position. */
  lemma {:induction false} WithoutAt(todos: seq<Todo>, i: int)
    requires UniqueIds(todos) && 0 <= i < |todos|
    ensures Without(todos, todos[i].id) == todos[..i] + todos[i + 1..]
  {
    if i == 0 {
      WithoutFirst(todos);
    } else {
      var id := todos[i].id;
      var rest := todos[1..];
      IdsSplit(todos);
      assert rest[i - 1] == todos[i];
      calc {
        Without(todos, id);
        == { WithoutCons(todos, id); }
        [todos[0]] + Without(rest, id);
        == { WithoutAt(rest, i - 1); }
        [todos[0]] + (rest[..i - 1] + rest[i..]);
        == { assert todos[..i] == [todos[0]] + rest[..i - 1]; assert todos[i + 1..] == rest[i..]; }
        todos[..i] + todos[i + 1..];
      }
    }
  }

  // Complete

  /** Completing a present key sets only its completion flag; every other record is unchanged.
      Completing a missing key answers not-found and leaves the store as it was. */
  lemma CompleteSpec(todos: seq<Todo>, id: int, k: int)
    requires UniqueIds(todos)
    ensures var s := CompleteOp(todos, id);
      && (id !in Ids(todos) ==> s == Step(NotFound, todos))
      && (id in Ids(todos) ==>
            var t := GetTodoById(todos, id).value;
            && s.response == Ok(Todo(id, t.name, true, t.tag))
            && GetTodoById(s.store, id) == s.response)
      && (k != id ==> GetTodoById(s.store, k) == GetTodoById(todos, k))
      && UniqueIds(s.store)
  {
    if id in Ids(todos) {
      var t := GetTodoById(todos, id).value;
      ReplaceLookup(todos, Completed(t), k);
      ReplaceLookup(todos, Completed(t), id);
    }
  }

  /** Completing twice is completing once: the second call answers the same record and
      leaves the store as the first call left it. */
  lemma CompleteIdempotent(todos: seq<Todo>, id: int)
    requires UniqueIds(todos)
    ensures CompleteOp(CompleteOp(todos, id).store, id) == CompleteOp(todos, id)
  {
    if id in Ids(todos) {
      var t := GetTodoById(todos, id).value;
      var once := CompleteOp(todos, id);
      ReplaceLookup(todos, Completed(t), id);
      assert Completed(Completed(t)) == Completed(t);
      ReplaceUnchanged(once.store, Completed(t));
    }
  }

  /** In a store with unique keys, the completed-only query holds one record per key whose
      record is complete. */
  lemma CompletedKeys(todos: seq<Todo>)
    requires UniqueIds(todos)
    ensures UniqueIds(GetCompletedTodos(todos))
    ensures forall x :: x in Ids(GetCompletedTodos(todos)) <==>
      GetTodoById(todos, x).Ok? && GetTodoById(todos, x).value.isComplete
  {
    var r := GetCompletedTodos(todos);
    SubseqUniqueIds(r, todos);
    forall x | GetTodoById(todos, x).Ok? && GetTodoById(todos, x).value.isComplete
      ensures x in Ids(r)
    {
      assert GetTodoById(todos, x).value in r;
    }
    forall x | x in Ids(r)
      ensures GetTodoById(todos, x).Ok? && GetTodoById(todos, x).value.isComplete
    {
      var t :| t in r && t.id == x;
      GetTodoByIdFindsRecord(todos, t);
    }
  }

  /** Completing a present record adds its key to the keys of the completed records and
      changes no other key's membership. */
  lemma CompletedKeysAfterComplete(todos: seq<Todo>, id: int)
    requires UniqueIds(todos) && id in Ids(todos)
    ensures UniqueIds(CompleteOp(todos, id).store)
    ensures Ids(GetCompletedTodos(CompleteOp(todos, id).store)) == Ids(GetCompletedTodos(todos)) + {id}
  {
    var t := GetTodoById(todos, id).value;
    var store := Replace(todos, Completed(t));
    assert CompleteOp(todos, id).store == store;
    ReplaceLookup(todos, Completed(t), id);
    CompletedKeys(todos);
    CompletedKeys(store);
    forall x | x != id
      ensures x in Ids(GetCompletedTodos(store)) <==> x in Ids(GetCompletedTodos(todos))
    {
      ReplaceLookup(todos, Completed(t), x);
    }
  }

  /** Completing a present, incomplete record adds exactly one record to the completed-only
      query; completing an already complete or a missing one adds none. */
  lemma CompleteCountsOneMore(todos: seq<Todo>, id: int)
    requires UniqueIds(todos)
    ensures var before := GetCompletedTodos(todos);
      var after := GetCompletedTodos(CompleteOp(todos, id).store);
      |after| == |before| + (if TodoExists(todos, id) && !GetTodoById(todos, id).value.isComplete then 1 else 0)
  {
    var before := GetCompletedTodos(todos);
    if !TodoExists(todos, id) {
      assert CompleteOp(todos, id) == Step(NotFound, todos);
    } else {
      var store := CompleteOp(todos, id).store;
      var after := GetCompletedTodos(store);
      CompletedKeysAfterComplete(todos, id);
      SubseqUniqueIds(before, todos);
      SubseqUniqueIds(after, store);
      UniqueIdsCount(before);
      UniqueIdsCount(after);
      var t := GetTodoById(todos, id).value;
      if t.isComplete {
        assert t in before;
        assert Ids(after) == Ids(before);
      } else {
        CompletedKeys(todos);
      }
    }
  }
}
