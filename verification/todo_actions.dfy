/**
 * The server actions of `src/lib/actions/todo-actions.ts`: a module-level array of todos,
 * changed in place. The random id (`crypto.randomUUID()`) and the current time as ISO text
 * (`new Date().toISOString()`) are parameters.
 */
module TodoActions {
  import opened Wrappers
  import opened TodoModel

  /** `CreateTodoData`: the text and the reminder of a new todo. */
  datatype CreateTodoData = CreateTodoData(text: string, remindAt: Option<string>)

  /** `UpdateTodoData`: the id to update and the fields to change; `None` stands for `null`/`undefined`. */
  datatype UpdateTodoData = UpdateTodoData(id: string, text: Option<string>, completed: Option<bool>, remindAt: Option<string>)

  /** `findIndex(todo => todo.id === id)`: the first position holding `id`, if any. */
  function FindIndex(s: seq<Todo>, id: string): (r: Option<nat>)
    ensures r.Some? ==> r.value < |s| && s[r.value].id == id && forall j :: 0 <= j < r.value ==> s[j].id != id
    ensures r.None? ==> forall j :: 0 <= j < |s| ==> s[j].id != id
  {
    if s == [] then None
    else if s[0].id == id then Some(0)
    else match FindIndex(s[1..], id)
      case None => None
      case Some(i) => Some(i + 1)
  }

  /** `filter(todo => todo.id !== id)`. */
  function Without(s: seq<Todo>, id: string): seq<Todo> {
    if s == [] then []
    else (if s[0].id == id then [] else [s[0]]) + Without(s[1..], id)
  }

  /**
   * The record `updateTodo` writes: id and creation time kept, each of text, completion
   * and reminder taken from the request unless it is `null`/`undefined`, a fresh update
   * time. The literal lists no `note` or `remindHasTime`, so those are dropped.
   */
  function Updated(existing: Todo, data: UpdateTodoData, stamp: string): Todo {
    Todo(
      id := existing.id,
      name := data.text.GetOr(existing.name),
      completed := data.completed.GetOr(existing.completed),
      remindAt := if data.remindAt.Some? then data.remindAt else existing.remindAt,
      remindHasTime := None,
      note := None,
      createdAt := existing.createdAt,
      updatedAt := stamp)
  }

  predicate UniqueIds(s: seq<Todo>) {
    forall i, j :: 0 <= i < j < |s| ==> s[i].id != s[j].id
  }

  class TodoStore {
    var todos: seq<Todo>

    constructor ()
      ensures todos == []
    {
      todos := [];
    }

    /** `createTodo`: appends an open todo with the given id and the request's text and reminder. */
    method CreateTodo(data: CreateTodoData, id: string, stamp: string) returns (created: Todo)
      modifies this
      ensures created == Todo(id, data.text, false, data.remindAt, None, None, stamp, stamp)
      ensures todos == old(todos) + [created]
    {
      created := Todo(id, data.text, false, data.remindAt, None, None, stamp, stamp);
      todos := todos + [created];
    }

    /**
     * `updateTodo`: replaces the first todo with the request's id by its merged record;
     * `None` (JavaScript `null`) and no change when no todo has that id.
     */
    method UpdateTodo(data: UpdateTodoData, stamp: string) returns (result: Option<Todo>)
      modifies this
      ensures FindIndex(old(todos), data.id).None? ==> result.None? && todos == old(todos)
      ensures FindIndex(old(todos), data.id).Some? ==>
        var i := FindIndex(old(todos), data.id).value;
        && result == Some(Updated(old(todos)[i], data, stamp))
        && todos == old(todos)[i := result.value]
    {
      var index := FindIndex(todos, data.id);
      if index.None? {
        return None;
      }
      var updated := Updated(todos[index.value], data, stamp);
      todos := todos[index.value := updated];
      return Some(updated);
    }

    /** `deleteTodo`: drops every todo with the id; true exactly when one was there. */
    method DeleteTodo(id: string) returns (deleted: bool)
      modifies this
      ensures todos == Without(old(todos), id)
      ensures deleted <==> exists i :: 0 <= i < |old(todos)| && old(todos)[i].id == id
    {
      var initialLength := |todos|;
      todos := Without(todos, id);
      deleted := |todos| < initialLength;
      WithoutShrinks(old(todos), id);
    }

    /** `getAllTodos`: the store's current contents. */
    method GetAllTodos() returns (all: seq<Todo>)
      ensures all == todos
    {
      all := todos;
    }
  }

  // ---------------------------------------------------------------- lemmas

  /** Filtering keeps exactly the todos with another id, and shortens the list exactly when the id was present. */
  lemma WithoutShrinks(s: seq<Todo>, id: string)
    ensures forall t :: t in Without(s, id) <==> t in s && t.id != id
    ensures |Without(s, id)| <= |s|
    ensures |Without(s, id)| < |s| <==> exists i :: 0 <= i < |s| && s[i].id == id
  {
    WithoutMembers(s, id);
    WithoutLength(s, id);
  }

  lemma {:induction false} WithoutMembers(s: seq<Todo>, id: string)
    ensures forall t :: t in Without(s, id) <==> t in s && t.id != id
  {
    if s != [] {
      WithoutMembers(s[1..], id);
      assert Without(s, id) == (if s[0].id == id then [] else [s[0]]) + Without(s[1..], id);
      assert s == [s[0]] + s[1..];
    }
  }

  lemma {:induction false} WithoutLength(s: seq<Todo>, id: string)
    ensures |Without(s, id)| <= |s|
    ensures |Without(s, id)| < |s| <==> exists i :: 0 <= i < |s| && s[i].id == id
  {
    if s != [] {
      WithoutLength(s[1..], id);
      assert |Without(s, id)| == (if s[0].id == id then 0 else 1) + |Without(s[1..], id)|;
      if exists i :: 0 <= i < |s[1..]| && s[1..][i].id == id {
        var i :| 0 <= i < |s[1..]| && s[1..][i].id == id;
        assert s[i + 1].id == id;
      }
      if exists i :: 0 <= i < |s| && s[i].id == id {
        var i :| 0 <= i < |s| && s[i].id == id;
        if i > 0 {
          assert s[1..][i - 1].id == id;
        }
      }
    }
  }

  /** Deleting twice is deleting once. */
  lemma {:induction false} WithoutIdempotent(s: seq<Todo>, id: string)
    ensures Without(Without(s, id), id) == Without(s, id)
  {
    if s != [] {
      WithoutIdempotent(s[1..], id);
      if s[0].id != id {
        var x := [s[0]] + Without(s[1..], id);
        assert Without(s, id) == x;
        assert x[0] == s[0] && x[1..] == Without(s[1..], id);
        assert Without(x, id) == [s[0]] + Without(x[1..], id);
      } else {
        assert Without(s, id) == [] + Without(s[1..], id) == Without(s[1..], id);
      }
    }
  }

  /** The merged record keeps the identity and creation time, and takes exactly the supplied fields. */
  lemma UpdatedMerges(existing: Todo, data: UpdateTodoData, stamp: string)
    ensures var u := Updated(existing, data, stamp);
      && u.id == existing.id && u.createdAt == existing.createdAt && u.updatedAt == stamp
      && (data.text.Some? ==> u.name == data.text.value) && (data.text.None? ==> u.name == existing.name)
      && (data.completed.Some? ==> u.completed == data.completed.value)
      && (data.completed.None? ==> u.completed == existing.completed)
      && (data.remindAt.Some? ==> u.remindAt == data.remindAt) && (data.remindAt.None? ==> u.remindAt == existing.remindAt)
  {
  }

  /** Appending a todo whose id is new keeps ids unique. */
  lemma CreateKeepsIdsUnique(s: seq<Todo>, t: Todo)
    requires UniqueIds(s) && FindIndex(s, t.id).None?
    ensures UniqueIds(s + [t])
  {
  }

  /** An update keeps the id at its position, so ids stay unique and the todo is found where it was. */
  lemma UpdateKeepsIdsUnique(s: seq<Todo>, data: UpdateTodoData, stamp: string)
    requires UniqueIds(s) && FindIndex(s, data.id).Some?
    ensures var i := FindIndex(s, data.id).value; var s' := s[i := Updated(s[i], data, stamp)];
      UniqueIds(s') && FindIndex(s', data.id) == Some(i) && |s'| == |s|
  {
    var i := FindIndex(s, data.id).value;
    var s' := s[i := Updated(s[i], data, stamp)];
    assert forall j :: 0 <= j < |s| ==> s'[j].id == s[j].id;
  }

  /** Deleting keeps ids unique and leaves no todo with the deleted id. */
  lemma {:induction false} DeleteKeepsIdsUnique(s: seq<Todo>, id: string)
    requires UniqueIds(s)
    ensures UniqueIds(Without(s, id)) && FindIndex(Without(s, id), id).None?
  {
    WithoutMembers(s, id);
    if s != [] {
      assert UniqueIds(s[1..]) by {
        forall i, j | 0 <= i < j < |s[1..]|
          ensures s[1..][i].id != s[1..][j].id
        {
          assert s[1..][i] == s[i + 1] && s[1..][j] == s[j + 1];
        }
      }
      DeleteKeepsIdsUnique(s[1..], id);
      var rest := Without(s[1..], id);
      if s[0].id != id {
        WithoutMembers(s[1..], id);
        forall t | t in rest
          ensures t.id != s[0].id
        {
          var k :| 0 <= k < |s[1..]| && s[1..][k] == t;
          assert s[k + 1] == t;
        }
        ConsUnique(s[0], rest);
        assert Without(s, id) == [s[0]] + rest;
      } else {
        assert Without(s, id) == rest;
      }
    }
  }

  lemma ConsUnique(t: Todo, rest: seq<Todo>)
    requires UniqueIds(rest)
    requires forall u :: u in rest ==> u.id != t.id
    ensures UniqueIds([t] + rest)
  {
    var r := [t] + rest;
    forall i, j | 0 <= i < j < |r|
      ensures r[i].id != r[j].id
    {
      assert r[j] == rest[j - 1];
      if i > 0 {
        assert r[i] == rest[i - 1];
      }
    }
  }
}
