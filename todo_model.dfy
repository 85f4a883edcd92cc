/**
  The todo record and the primitives of the keyed store that holds them:
  filtering (LINQ `Where`) and primary-key lookup (`FindAsync`). The store's
  contents are a sequence of records, in the order the store enumerates them,
  with no two records sharing an id.
 */
module TodoModel {

  datatype Option<T> = None | Some(value: T)

  /** The outcome of an operation on one record: the record, or HTTP 404. */
  datatype Result<T> = Ok(value: T) | NotFound

  /** A todo record: its key, an optional name, a completion flag and an optional tag. */
  datatype Todo = Todo(id: int, name: Option<string>, isComplete: bool, tag: Option<string>)

  /** No two records share a key. */
  ghost predicate UniqueIds(todos: seq<Todo>) {
    forall i, j :: 0 <= i < j < |todos| ==> todos[i].id != todos[j].id
  }

  /** The keys present in the store. */
  ghost function Ids(todos: seq<Todo>): set<int> {
    set t | t in todos :: t.id
  }

  /** `a` is `b` with some records dropped and the order of the others kept. */
  ghost predicate IsSubseq(a: seq<Todo>, b: seq<Todo>)
    decreases |b|
  {
    a == [] || (b != [] && ((a[0] == b[0] && IsSubseq(a[1..], b[1..])) || IsSubseq(a, b[1..])))
  }

  /** `Where`: the records that satisfy `p`, in store order. */
  function Where(todos: seq<Todo>, p: Todo -> bool): (r: seq<Todo>)
    ensures forall t :: t in r <==> t in todos && p(t)
    ensures |r| <= |todos|
    ensures IsSubseq(r, todos)
  {
    if todos == [] then []
    else
      var rest := Where(todos[1..], p);
      if p(todos[0]) then
        assert ([todos[0]] + rest)[1..] == rest;
        [todos[0]] + rest
      else rest
  }

  /** Primary-key lookup: the position of the record keyed `id`, or -1 when there is none. */
  function IndexOf(todos: seq<Todo>, id: int): (i: int)
    ensures -1 <= i < |todos|
    ensures i == -1 <==> id !in Ids(todos)
    ensures 0 <= i ==> todos[i].id == id && forall j :: 0 <= j < i ==> todos[j].id != id
  {
    if todos == [] then -1
    else if todos[0].id == id then 0
    else
      var k := IndexOf(todos[1..], id);
      assert id in Ids(todos[1..]) <==> id in Ids(todos) by {
        assert todos == [todos[0]] + todos[1..];
      }
      if k == -1 then -1 else k + 1
  }

  /** Filtering with two predicates that agree on the store gives the same records. */
  lemma {:induction false} WhereCongruent(todos: seq<Todo>, p: Todo -> bool, q: Todo -> bool)
    requires forall t :: t in todos ==> p(t) == q(t)
    ensures Where(todos, p) == Where(todos, q)
  {
    if todos != [] {
      WhereCongruent(todos[1..], p, q);
    }
  }

  /** The filter keeps every passing element as often as it occurs, and drops every other. */
  lemma {:induction false} WhereMultiset(todos: seq<Todo>, p: Todo -> bool)
    ensures forall t :: multiset(Where(todos, p))[t] == if p(t) then multiset(todos)[t] else 0
  {
    if todos != [] {
      WhereMultiset(todos[1..], p);
      assert todos == [todos[0]] + todos[1..];
    }
  }

  /** Filtering a sequence with one more element at the end filters the front and then that element. */
  lemma {:induction false} WhereSnoc(todos: seq<Todo>, x: Todo, p: Todo -> bool)
    ensures Where(todos + [x], p) == Where(todos, p) + (if p(x) then [x] else [])
  {
    if todos == [] {
      assert [x][1..] == [];
    } else {
      var longer := todos + [x];
      var tail := if p(x) then [x] else [];
      assert longer[0] == todos[0];
      assert longer[1..] == todos[1..] + [x];
      WhereSnoc(todos[1..], x, p);
      if p(todos[0]) {
        calc {
          Where(longer, p);
          [todos[0]] + Where(todos[1..] + [x], p);
          [todos[0]] + (Where(todos[1..], p) + tail);
          ([todos[0]] + Where(todos[1..], p)) + tail;
        }
      }
    }
  }

  /** The positions of `todos` whose element passes `p`. */
  ghost function Passing(todos: seq<Todo>, p: Todo -> bool): set<int> {
    set i | 0 <= i < |todos| && p(todos[i])
  }

  /** The passing positions of a sequence with one more element at the end. */
  lemma PassingSnoc(todos: seq<Todo>, p: Todo -> bool)
    requires todos != []
    ensures var n := |todos| - 1;
      && Passing(todos, p) == Passing(todos[..n], p) + (if p(todos[n]) then {n} else {})
      && n !in Passing(todos[..n], p)
  {
    var n := |todos| - 1;
    forall i | 0 <= i < n ensures todos[i] == todos[..n][i] { }
  }

  /** The filter keeps one element per position whose element passes. */
  lemma {:induction false} WhereCount(todos: seq<Todo>, p: Todo -> bool)
    ensures |Where(todos, p)| == |Passing(todos, p)|
  {
    if todos == [] {
      assert Passing(todos, p) == {};
    } else {
      var n := |todos| - 1;
      var front := todos[..n];
      assert todos == front + [todos[n]];
      WhereSnoc(front, todos[n], p);
      WhereCount(front, p);
      PassingSnoc(todos, p);
    }
  }

  /** Filtering with a predicate every record satisfies keeps the whole store. */
  lemma {:induction false} WhereAll(todos: seq<Todo>, p: Todo -> bool)
    requires forall t :: t in todos ==> p(t)
    ensures Where(todos, p) == todos
  {
    if todos != [] {
      WhereAll(todos[1..], p);
    }
  }

  /** A subsequence of a store with unique keys has unique keys. */
  lemma {:induction false} SubseqUniqueIds(a: seq<Todo>, b: seq<Todo>)
    requires IsSubseq(a, b) && UniqueIds(b)
    ensures UniqueIds(a)
    decreases |b|
  {
    if a != [] {
      if a[0] == b[0] && IsSubseq(a[1..], b[1..]) {
        SubseqUniqueIds(a[1..], b[1..]);
        SubseqMembers(a[1..], b[1..]);
        forall i, j | 0 <= i < j < |a| ensures a[i].id != a[j].id {
          if i > 0 {
            assert a[i] == a[1..][i - 1] && a[j] == a[1..][j - 1];
          } else {
            assert a[j] in b[1..];
            var k :| 0 <= k < |b[1..]| && b[1..][k] == a[j];
            assert b[k + 1] == a[j];
          }
        }
      } else {
        SubseqUniqueIds(a, b[1..]);
      }
    }
  }

  /** Every record of a subsequence is a record of the sequence. */
  lemma {:induction false} SubseqMembers(a: seq<Todo>, b: seq<Todo>)
    requires IsSubseq(a, b)
    ensures forall t :: t in a ==> t in b
    decreases |b|
  {
    if a != [] {
      if a[0] == b[0] && IsSubseq(a[1..], b[1..]) {
        SubseqMembers(a[1..], b[1..]);
        assert a == [a[0]] + a[1..];
      } else {
        SubseqMembers(a, b[1..]);
      }
    }
  }

  /** The keys of a non-empty store are its first key and the keys of the rest; with unique keys
      the first key is not among the rest. */
  lemma IdsSplit(todos: seq<Todo>)
    requires todos != []
    ensures Ids(todos) == {todos[0].id} + Ids(todos[1..])
    ensures UniqueIds(todos) ==> UniqueIds(todos[1..]) && todos[0].id !in Ids(todos[1..])
  {
    var rest := todos[1..];
    assert todos == [todos[0]] + rest;
    if UniqueIds(todos) {
      forall t | t in rest ensures t.id != todos[0].id {
        var k :| 0 <= k < |rest| && rest[k] == t;
        assert todos[k + 1] == t;
      }
    }
  }

  /** In a store with unique keys there are exactly as many keys as records. */
  lemma {:induction false} UniqueIdsCount(todos: seq<Todo>)
    requires UniqueIds(todos)
    ensures |Ids(todos)| == |todos|
  {
    if todos != [] {
      IdsSplit(todos);
      UniqueIdsCount(todos[1..]);
    }
  }

  /** In a store with unique keys, a record is found by its own key. */
  lemma IndexOfRecord(todos: seq<Todo>, i: int)
    requires UniqueIds(todos) && 0 <= i < |todos|
    ensures IndexOf(todos, todos[i].id) == i
  {
    assert todos[i].id in Ids(todos);
  }
}
