/**
  The persistence context `TodoDb` with the mutating operations of `TodoTools`
  run against it. Each method changes the store's records in place and is
  proved to take exactly the step its function in `TodoTransitions` describes;
  the queries of `TodoTools` are read off `todos`.
 */
module TodoStore {
  import opened TodoModel
  import opened TodoTools
  import opened TodoTransitions

  class TodoDb {
    /** The stored records, in the order the store lists them. */
    var todos: seq<Todo>
    /** The next key the store hands out; every stored key is below it. */
    var nextId: int

    ghost predicate Valid()
      reads this
    {
      && UniqueIds(todos)
      && forall t :: t in todos ==> t.id < nextId
    }

    /** An empty store whose first key is 1. */
    constructor ()
      ensures Valid() && todos == [] && nextId == 1
    {
      todos := [];
      nextId := 1;
    }

    /** `AddTodoItem`: stores the input under a fresh key and answers it. */
    method AddTodoItem(todo: Todo) returns (added: Todo)
      requires Valid()
      modifies this
      ensures Valid() && nextId > old(nextId)
      ensures added.id !in old(Ids(todos))
      ensures Step(added, todos) == AddOp(old(todos), added.id, todo)
      ensures GetTodoById(todos, added.id) == Ok(added)
    {
      added := todo.(id := nextId);
      AddThenGet(todos, nextId, todo, nextId);
      todos := todos + [added];
      nextId := nextId + 1;
    }

    /** `UpdateTodoItem`: overwrites the name, completion and tag of the record keyed `id`. */
    method UpdateTodoItem(id: int, input: Todo) returns (r: Result<Todo>)
      requires Valid()
      modifies this
      ensures Valid() && nextId == old(nextId)
      ensures Step(r, todos) == UpdateOp(old(todos), id, input)
    {
      var i := IndexOf(todos, id);
      if i < 0 {
        return NotFound;
      }
      var updated := Overwritten(todos[i], input);
      ReplaceAt(todos, i, updated);
      todos := todos[i := updated];
      r := Ok(updated);
    }

    /** `BatchUpdateTodoItems`: visits the inputs in order; a found input overwrites its record's
        name and completion and is collected, a missing one is skipped. The collected entries
        are the tracked records, so they are read once the loop is over. */
    method BatchUpdateTodoItems(inputs: seq<Todo>) returns (updated: seq<Todo>)
      requires Valid()
      modifies this
      ensures Valid() && nextId == old(nextId)
      ensures Step(updated, todos) == BatchOp(old(todos), inputs)
    {
      var hits: seq<int> := [];
      var i := 0;
      while i < |inputs|
        invariant 0 <= i <= |inputs|
        invariant Valid() && nextId == old(nextId)
        invariant todos == BatchStore(old(todos), inputs[..i])
        invariant hits == BatchHits(old(todos), inputs[..i])
      {
        var input := inputs[i];
        assert inputs[..i + 1][..i] == inputs[..i];
        BatchKeepsKeys(old(todos), inputs[..i]);
        var k := IndexOf(todos, input.id);
        if k >= 0 {
          var changed := BatchOverwritten(todos[k], input);
          ReplaceAt(todos, k, changed);
          todos := todos[k := changed];
          hits := hits + [input.id];
        }
        i := i + 1;
      }
      assert inputs[..i] == inputs;
      BatchKeepsKeys(old(todos), inputs);
      updated := RecordsOf(todos, hits);
    }

    /** `DeleteTodoItem`: removes the record keyed `id` and answers it. */
    method DeleteTodoItem(id: int) returns (r: Result<Todo>)
      requires Valid()
      modifies this
      ensures Valid() && nextId == old(nextId)
      ensures Step(r, todos) == DeleteOp(old(todos), id)
    {
      var i := IndexOf(todos, id);
      if i < 0 {
        WhereAll(todos, (t: Todo) => t.id != id);
        return NotFound;
      }
      r := Ok(todos[i]);
      WithoutAt(todos, i);
      todos := todos[..i] + todos[i + 1..];
    }

    /** `CompleteTodoItem`: marks the record keyed `id` complete. */
    method CompleteTodoItem(id: int) returns (r: Result<Todo>)
      requires Valid()
      modifies this
      ensures Valid() && nextId == old(nextId)
      ensures Step(r, todos) == CompleteOp(old(todos), id)
    {
      var i := IndexOf(todos, id);
      if i < 0 {
        return NotFound;
      }
      var done := Completed(todos[i]);
      ReplaceAt(todos, i, done);
      todos := todos[i := done];
      r := Ok(done);
    }
  }
}
