/**
  The query operations of `TodoTools`: each one reads the store's records and
  returns a list of records, one record or not-found, or a flag. They change
  nothing, so each is a function of the store's contents.
 */
module TodoTools {
  import opened Text
  import opened TodoModel

  /** The one status filter the listing recognises: "completed", in any case. */
  predicate IsCompletedStatus(status: Option<string>)
    ensures IsCompletedStatus(status) ==> status.Some? && |status.value| == |"completed"|
  {
    status.Some? && EqualsIgnoreCase(status.value, "completed")
  }

  /** A record matches a name query when it has a name that contains the query, ignoring case. */
  predicate NameMatches(t: Todo, query: string)
    ensures NameMatches(t, query) ==> t.name.Some? && |query| <= |t.name.value|
  {
    t.name.Some? && Contains(ToLower(t.name.value), ToLower(query))
  }

  /** `GetCompletedTodos`: exactly the completed records, in store order. */
  function GetCompletedTodos(todos: seq<Todo>): (r: seq<Todo>)
    ensures forall t :: t in r <==> t in todos && t.isComplete
    ensures IsSubseq(r, todos)
  {
    Where(todos, (t: Todo) => t.isComplete)
  }

  /** `GetAllTodos`: the completed records when the status is "completed" in any case,
      otherwise (no status, an empty one, any other word) every record. */
  function GetAllTodos(todos: seq<Todo>, status: Option<string>): (r: seq<Todo>)
    ensures forall t :: t in r <==> t in todos && (IsCompletedStatus(status) ==> t.isComplete)
    ensures IsCompletedStatus(status) ==> r == GetCompletedTodos(todos)
    ensures !IsCompletedStatus(status) ==> r == todos
  {
    if IsCompletedStatus(status) then GetCompletedTodos(todos) else todos
  }

  /** `GetTodoById`: the record keyed `id`, or not-found when the key is absent. */
  function GetTodoById(todos: seq<Todo>, id: int): (r: Result<Todo>)
    ensures r.Ok? <==> id in Ids(todos)
    ensures r.Ok? ==> r.value in todos && r.value.id == id
  {
    var i := IndexOf(todos, id);
    if i < 0 then NotFound else Ok(todos[i])
  }

  /** `TodoExists`: whether some record has key `id`. */
  function TodoExists(todos: seq<Todo>, id: int): (r: bool)
    ensures r <==> id in Ids(todos)
    ensures r <==> GetTodoById(todos, id).Ok?
  {
    if todos == [] then false
    else
      assert id in Ids(todos) <==> todos[0].id == id || id in Ids(todos[1..]) by {
        assert todos == [todos[0]] + todos[1..];
      }
      todos[0].id == id || TodoExists(todos[1..], id)
  }

  /** `GetTodosByIds`: the stored records whose key is among `ids`, in store order;
      keys with no record are left out without error. */
  function GetTodosByIds(todos: seq<Todo>, ids: seq<int>): (r: seq<Todo>)
    ensures forall t :: t in r <==> t in todos && t.id in ids
    ensures IsSubseq(r, todos)
  {
    Where(todos, (t: Todo) => t.id in ids)
  }

  /** `SearchTodosByName`: the records with a name containing `name`, both lower-cased;
      a record without a name never matches. */
  function SearchTodosByName(todos: seq<Todo>, name: string): (r: seq<Todo>)
    ensures forall t :: t in r <==> t in todos && NameMatches(t, name)
    ensures forall t :: t in r ==> t.name.Some?
    ensures r == [] <==> forall t :: t in todos ==> !NameMatches(t, name)
    ensures IsSubseq(r, todos)
  {
    var r := Where(todos, (t: Todo) => NameMatches(t, name));
    assert r != [] ==> r[0] in r;
    r
  }

  /** In a store with unique keys, every record is what a lookup of its key returns. */
  lemma GetTodoByIdFindsRecord(todos: seq<Todo>, t: Todo)
    requires UniqueIds(todos) && t in todos
    ensures GetTodoById(todos, t.id) == Ok(t)
  {
    var i :| 0 <= i < |todos| && todos[i] == t;
    IndexOfRecord(todos, i);
  }

  /** The status filter is recognised in any case, and nothing else switches it on. */
  lemma CompletedStatusSpellings()
    ensures IsCompletedStatus(Some("completed"))
    ensures IsCompletedStatus(Some("COMPLETED"))
    ensures IsCompletedStatus(Some("Completed"))
    ensures !IsCompletedStatus(Some("complete"))
    ensures !IsCompletedStatus(Some(""))
    ensures !IsCompletedStatus(None)
  {
    assert ToLower("completed") == "completed";
    assert ToLower("COMPLETED") == "completed";
    assert ToLower("Completed") == "completed";
  }

  /** The multi-id query returns one record per distinct stored key among `ids`,
      so never more records than the store holds keys from `ids`. */
  lemma GetTodosByIdsCount(todos: seq<Todo>, ids: seq<int>)
    requires UniqueIds(todos)
    ensures |GetTodosByIds(todos, ids)| == |Ids(todos) * (set k | k in ids)|
  {
    var r := GetTodosByIds(todos, ids);
    SubseqUniqueIds(r, todos);
    UniqueIdsCount(r);
    assert Ids(r) == Ids(todos) * (set k | k in ids);
  }

  /** The search ignores the case of the query: queries equal up to case find the same records. */
  lemma SearchIgnoresQueryCase(todos: seq<Todo>, q1: string, q2: string)
    requires EqualsIgnoreCase(q1, q2)
    ensures SearchTodosByName(todos, q1) == SearchTodosByName(todos, q2)
  {
    WhereCongruent(todos, (t: Todo) => NameMatches(t, q1), (t: Todo) => NameMatches(t, q2));
  }

  /** When exactly one record of a store with unique keys matches the query, the search
      answers that record alone. */
  lemma SearchSingleMatch(todos: seq<Todo>, name: string, k: int)
    requires UniqueIds(todos) && 0 <= k < |todos|
    requires forall t :: t in todos ==> (NameMatches(t, name) <==> t == todos[k])
    ensures SearchTodosByName(todos, name) == [todos[k]]
  {
    var r := SearchTodosByName(todos, name);
    SubseqUniqueIds(r, todos);
    UniqueIdsCount(r);
    assert Ids(r) == {todos[k].id};
    assert r[0] in r;
  }

  /** The empty query finds exactly the records that have a name. */
  lemma SearchEmptyQuery(todos: seq<Todo>)
    ensures forall t :: t in SearchTodosByName(todos, "") <==> t in todos && t.name.Some?
  {
    forall t | t in todos && t.name.Some?
      ensures NameMatches(t, "")
    {
      ContainsEmpty(ToLower(t.name.value));
    }
  }
}
