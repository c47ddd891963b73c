/** The session and the state-changing POST handlers. Each handler is one
    method; lists and to-dos are addressed by their position in the session
    arrays, as `params[:list_id].to_i` and `params[:todo_id].to_i` address
    them for non-negative numeric segments. */
module Sessions {
  import opened Records
  import opened Text
  import opened Validation
  import opened Views

  /** The success notices the handlers leave in `session[:success]`. */
  datatype Notice =
    | ListCreated | ListUpdated | WasDeleted(name: string)
    | TodoAdded | TodoUpdated | AllTodosComplete

  /** The text the application stores for each notice. */
  function NoticeText(n: Notice): string {
    match n
    case ListCreated => "The list has been created."
    case ListUpdated => "The list has been updated."
    case WasDeleted(name) => Deleted(name)
    case TodoAdded => "New todo added"
    case TodoUpdated => "The todo has been updated"
    case AllTodosComplete => "All todos complete"
  }

  /** The notice after deleting a list or a to-do called `name`; the name
      can be read back from it. */
  function Deleted(name: string): (r: string)
    ensures |r| == |name| + 14 && r[1..|name| + 1] == name
  {
    "'" + name + "' was deleted"
  }

  /** Different notices have different texts, so the stored notice is what
      the stored text says. */
  lemma NoticeTextInjective(a: Notice, b: Notice)
    requires NoticeText(a) == NoticeText(b)
    ensures a == b
  {
    if a.WasDeleted? || b.WasDeleted? {
      var t := NoticeText(a);
      assert t[0] == '\'';
      if a.WasDeleted? && b.WasDeleted? {
        assert a.name == t[1..|t| - 13] == b.name;
      }
    }
  }

  /** Every to-do of `todos` marked completed, names and order kept. */
  function AllDone(todos: seq<Todo>): (r: seq<Todo>)
    ensures |r| == |todos|
    ensures forall k :: 0 <= k < |r| ==> r[k].name == todos[k].name && r[k].completed
  {
    seq(|todos|, k requires 0 <= k < |todos| => todos[k].(completed := true))
  }

  /** After "complete all" a list is a completed list exactly when it has at
      least one to-do, and it has no incomplete to-dos left. */
  lemma CompleteAllCompletesList(list: TodoList)
    ensures IsCompletedList(list.(todos := AllDone(list.todos))) <==> |list.todos| > 0
    ensures IncompleteTodos(list.(todos := AllDone(list.todos))) == 0
  {
  }

  /** The incomplete count of a concatenation is the sum of the counts. */
  lemma {:induction false} CountIncompleteAppend(a: seq<Todo>, b: seq<Todo>)
    ensures CountIncomplete(a + b) == CountIncomplete(a) + CountIncomplete(b)
  {
    if b != [] {
      var init := b[..|b| - 1];
      CountIncompleteAppend(a, init);
      assert (a + b)[..|a + b| - 1] == a + init;
    } else {
      assert a + b == a;
    }
  }

  /** Setting one to-do's flag changes the incomplete count by at most one,
      in the expected direction. */
  lemma ToggleCount(todos: seq<Todo>, todoId: nat, completed: bool)
    requires todoId < |todos|
    ensures CountIncomplete(todos[todoId := todos[todoId].(completed := completed)]) ==
              CountIncomplete(todos)
              - (if todos[todoId].completed then 0 else 1)
              + (if completed then 0 else 1)
  {
    var flag := todos[todoId].(completed := completed);
    var before, after := todos[..todoId], todos[todoId + 1..];
    assert todos == before + [todos[todoId]] + after;
    assert todos[todoId := flag] == before + [flag] + after;
    CountIncompleteAppend(before + [todos[todoId]], after);
    CountIncompleteAppend(before, [todos[todoId]]);
    CountIncompleteAppend(before + [flag], after);
    CountIncompleteAppend(before, [flag]);
    assert CountIncomplete([flag]) == if completed then 0 else 1 by {
      assert [flag][..0] == [];
    }
    assert CountIncomplete([todos[todoId]]) == if todos[todoId].completed then 0 else 1 by {
      assert [todos[todoId]][..0] == [];
    }
  }

  /** With unique names no two lists are equal, so `lists.index(list)` is
      that list's own position. */
  lemma UniqueNamesOwnIndex(lists: seq<TodoList>)
    requires NamesUnique(lists)
    ensures forall k :: 0 <= k < |lists| ==> IndexOf(lists, lists[k]) == k
  {
  }

  /** With unique names the indices `sorted_lists` yields are exactly the
      positions of the incomplete lists, then those of the completed lists,
      ascending within each group; no index is yielded twice. */
  lemma SortedListsIndicesArePositions(lists: seq<TodoList>)
    requires NamesUnique(lists)
    ensures |Positions(lists, IsCompletedList, false) + Positions(lists, IsCompletedList, true)| ==
              |SortedView(lists, IsCompletedList)|
    ensures forall k :: 0 <= k < |SortedView(lists, IsCompletedList)| ==>
              SortedView(lists, IsCompletedList)[k].1 ==
              (Positions(lists, IsCompletedList, false) + Positions(lists, IsCompletedList, true))[k]
    ensures forall j, k :: 0 <= j < k < |SortedView(lists, IsCompletedList)| ==>
              SortedView(lists, IsCompletedList)[j].1 != SortedView(lists, IsCompletedList)[k].1
  {
    UniqueNamesOwnIndex(lists);
    ViewIndicesArePositions(lists, IsCompletedList);
    PositionsDistinct(lists, IsCompletedList);
  }

  class Session {
    /** `session[:lists]` */
    var lists: seq<TodoList>
    /** `session[:error]` and `session[:success]`, the flash messages: which
        message each holds (its text is `Message` or `NoticeText`). */
    var error: Option<Error>
    var success: Option<Notice>

    /** Names are unique and of valid length: every handler keeps this. */
    ghost predicate Valid()
      reads this
    {
      NamesUnique(lists) && NamesValid(lists)
    }

    /** A fresh session after the `before` hook: no lists, no messages. */
    constructor ()
      ensures lists == [] && error == None && success == None
      ensures Valid()
    {
      lists := [];
      error := None;
      success := None;
    }

    /** GET /lists: the template walks `sorted_lists(@lists)`. Under the
        invariant every yielded index is the position of its own list, and
        no position is yielded twice. */
    method ListsView() returns (v: seq<(TodoList, nat)>)
      requires Valid()
      ensures v == SortedView(lists, IsCompletedList)
      ensures forall k :: 0 <= k < |v| ==> v[k].1 < |lists| && lists[v[k].1] == v[k].0
      ensures forall j, k :: 0 <= j < k < |v| ==> v[j].1 != v[k].1
    {
      v := SortedLists(lists);
      SortedListsIndicesArePositions(lists);
    }

    /** POST /lists: create a list named by the stripped `listName`. */
    method CreateList(listName: string) returns (err: Option<Error>)
      modifies this
      ensures err == ErrorForListName(old(lists), Strip(listName))
      ensures err == None ==>
                lists == old(lists) + [TodoList(Strip(listName), [])] &&
                success == Some(ListCreated) && error == old(error)
      ensures err != None ==>
                lists == old(lists) && error == err && success == old(success)
      ensures old(Valid()) ==> Valid()
    {
      var name := Strip(listName);
      err := ErrorForListName(lists, name);
      if err != None {
        error := err;
      } else {
        CreateKeepsNames(lists, name);
        lists := lists + [TodoList(name, [])];
        success := Some(ListCreated);
      }
    }

    /** POST /lists/:list_id: rename the list at `listId` to the stripped
        `listName`, unless `error_for_edited_list` objects. */
    method RenameList(listId: nat, listName: string) returns (err: Option<Error>)
      requires listId < |lists|
      modifies this
      ensures err == ErrorForEditedList(old(lists), listId, Strip(listName))
      ensures err == None ==>
                lists == old(lists)[listId := old(lists[listId]).(name := Strip(listName))] &&
                success == Some(ListUpdated) && error == old(error)
      ensures err != None ==>
                lists == old(lists) && error == err && success == old(success)
      ensures old(Valid()) ==> Valid()
    {
      var name := Strip(listName);
      err := ErrorForEditedList(lists, listId, name);
      if err != None {
        error := err;
      } else {
        RenameKeepsNames(lists, listId, name);
        lists := lists[listId := lists[listId].(name := name)];
        success := Some(ListUpdated);
      }
    }

    /** POST /lists/:list_id/delete: `delete_at(list_id)`. */
    method DeleteList(listId: nat) returns (deleted: TodoList)
      requires listId < |lists|
      modifies this
      ensures deleted == old(lists[listId])
      ensures lists == RemoveAt(old(lists), listId)
      ensures success == Some(WasDeleted(deleted.name)) && error == old(error)
      ensures old(Valid()) ==> Valid()
    {
      deleted := lists[listId];
      DeleteKeepsNames(lists, listId);
      lists := RemoveAt(lists, listId);
      success := Some(WasDeleted(deleted.name));
    }

    /** POST /lists/:list_id/todos: the STRIPPED `todo` is validated, but the
        RAW parameter is what gets stored. */
    method AddTodo(listId: nat, todo: string) returns (err: Option<Error>)
      requires listId < |lists|
      modifies this
      ensures err == ErrorForNewTodo(Strip(todo))
      ensures err == None ==>
                lists == old(lists)[listId := old(lists[listId]).(todos := old(lists[listId].todos) + [Todo(todo, false)])] &&
                success == Some(TodoAdded) && error == old(error)
      ensures err != None ==>
                lists == old(lists) && error == err && success == old(success)
      ensures old(Valid()) ==> Valid()
    {
      err := ErrorForNewTodo(Strip(todo));
      if err != None {
        error := err;
      } else {
        lists := lists[listId := lists[listId].(todos := lists[listId].todos + [Todo(todo, false)])];
        success := Some(TodoAdded);
      }
    }

    /** POST /lists/:list_id/todos/:todo_id/delete: `delete_at(todo_id)` on the
        list's to-dos. */
    method DeleteTodo(listId: nat, todoId: nat) returns (deleted: Todo)
      requires listId < |lists| && todoId < |lists[listId].todos|
      modifies this
      ensures deleted == old(lists[listId].todos[todoId])
      ensures lists == old(lists)[listId := old(lists[listId]).(todos := RemoveAt(old(lists[listId].todos), todoId))]
      ensures success == Some(WasDeleted(deleted.name)) && error == old(error)
      ensures old(Valid()) ==> Valid()
    {
      var list := lists[listId];
      deleted := list.todos[todoId];
      lists := lists[listId := list.(todos := RemoveAt(list.todos, todoId))];
      success := Some(WasDeleted(deleted.name));
    }

    /** POST /lists/:list_id/todos/:todo_id: the to-do's flag becomes
        `params[:completed] == 'true'`. */
    method ToggleTodo(listId: nat, todoId: nat, completed: string)
      requires listId < |lists| && todoId < |lists[listId].todos|
      modifies this
      ensures lists == old(lists)[listId := old(lists[listId]).(todos :=
                old(lists[listId].todos)[todoId := old(lists[listId].todos[todoId]).(completed := completed == "true")])]
      ensures success == Some(TodoUpdated) && error == old(error)
      ensures old(Valid()) ==> Valid()
    {
      var list := lists[listId];
      var isCompleted := completed == "true";
      lists := lists[listId := list.(todos := list.todos[todoId := list.todos[todoId].(completed := isCompleted)])];
      success := Some(TodoUpdated);
    }

    /** POST /lists/:list_id/complete_todos: each to-do of the list is marked
        completed, one at a time. */
    method CompleteAll(listId: nat)
      requires listId < |lists|
      modifies this
      ensures lists == old(lists)[listId := old(lists[listId]).(todos := AllDone(old(lists[listId].todos)))]
      ensures success == Some(AllTodosComplete) && error == old(error)
      ensures old(Valid()) ==> Valid()
    {
      var todos := lists[listId].todos;
      var k := 0;
      while k < |todos|
        invariant 0 <= k <= |todos| == |old(lists[listId].todos)|
        invariant forall j :: 0 <= j < k ==> todos[j] == old(lists[listId].todos[j]).(completed := true)
        invariant forall j :: k <= j < |todos| ==> todos[j] == old(lists[listId].todos[j])
      {
        todos := todos[k := todos[k].(completed := true)];
        k := k + 1;
      }
      assert todos == AllDone(old(lists[listId].todos));
      lists := lists[listId := lists[listId].(todos := todos)];
      success := Some(AllTodosComplete);
    }
  }

  /** A list, two to-dos, each completed in turn. The session is split over
      three methods so that each proof only sees one stage of the session. */
  method CompleteOneByOneWalkthrough(name: string, first: string, second: string)
    requires Trimmed(name) && 1 <= |name| <= 100
    requires Trimmed(first) && 1 <= |first| <= 100 && Trimmed(second) && 1 <= |second| <= 100
  {
    var session := new Session();
    var err := session.CreateList(name);
    assert session.lists == [TodoList(name, [])];
    AddWalkthrough(session, first, second);
  }

  /** Two to-dos added to the fresh list come out incomplete, in order. */
  method AddWalkthrough(session: Session, first: string, second: string)
    requires |session.lists| == 1 && session.lists[0].todos == []
    requires Trimmed(first) && 1 <= |first| <= 100 && Trimmed(second) && 1 <= |second| <= 100
    modifies session
  {
    var err := session.AddTodo(0, first);
    assert err == None && |session.lists| == 1;
    assert session.lists[0].todos == [Todo(first, false)];
    err := session.AddTodo(0, second);
    assert err == None && |session.lists| == 1;
    assert session.lists[0].todos == [Todo(first, false), Todo(second, false)];
    ToggleWalkthrough(session, first, second);
  }

  /** Completing the first to-do leaves the list incomplete; completing the
      second too completes it. */
  method ToggleWalkthrough(session: Session, first: string, second: string)
    requires |session.lists| == 1
    requires session.lists[0].todos == [Todo(first, false), Todo(second, false)]
    modifies session
  {
    session.ToggleTodo(0, 0, "true");
    assert session.lists[0].todos == [Todo(first, true), Todo(second, false)];
    assert !IsCompletedList(session.lists[0]);
    session.ToggleTodo(0, 1, "true");
    assert session.lists[0].todos == [Todo(first, true), Todo(second, true)];
    assert IsCompletedList(session.lists[0]);
  }

  /** A to-do padded with one space on each side passes validation whenever
      its trimmed text does, although it is two characters longer: a text of
      99 or 100 characters is accepted and stored with 101 or 102. */
  lemma PaddedTodoPasses(t: string)
    requires Trimmed(t) && 1 <= |t| <= 100
    ensures ErrorForNewTodo(Strip(" " + t + " ")) == None
    ensures |" " + t + " "| == |t| + 2
    ensures |t| >= 99 ==> ErrorForNewTodo(" " + t + " ") != None
  {
    StripPadded(t);
  }

  /** The stripped text is validated but the raw text is stored: a trimmed
      text padded with one space on each side passes and keeps its spaces. */
  method RawTodoWalkthrough(session: Session, t: string)
    requires |session.lists| == 1 && session.lists[0].todos == []
    requires Trimmed(t) && 1 <= |t| <= 100
    modifies session
  {
    PaddedTodoPasses(t);
    var err := session.AddTodo(0, " " + t + " ");
    assert err == None;
    assert session.lists[0].todos == [Todo(" " + t + " ", false)];
  }

  /** Two lists with distinct trimmed names `a` and `b`, created in that
      order. Split over three methods so that each proof only sees one stage
      of the session. */
  method RenameWalkthrough(a: string, b: string)
    requires Trimmed(a) && Trimmed(b) && 1 <= |a| <= 100 && 1 <= |b| <= 100 && a != b
  {
    var session := new Session();
    var err := session.CreateList(a);
    assert session.lists == [TodoList(a, [])];
    CreateSecond(session, a, b);
  }

  /** Creating a second list under a fresh name appends it. */
  method CreateSecond(session: Session, a: string, b: string)
    requires session.lists == [TodoList(a, [])]
    requires Trimmed(a) && Trimmed(b) && 1 <= |a| <= 100 && 1 <= |b| <= 100 && a != b
    modifies session
  {
    var err := session.CreateList(b);
    assert err == None;
    assert session.lists == [TodoList(a, []), TodoList(b, [])];
    RenameOntoTaken(session, a, b);
  }

  /** Renaming `b` to the taken `a` fails; keeping `b` is accepted. */
  method RenameOntoTaken(session: Session, a: string, b: string)
    requires session.lists == [TodoList(a, []), TodoList(b, [])]
    requires Trimmed(a) && Trimmed(b) && 1 <= |a| <= 100 && a != b
    modifies session
  {
    var err := session.RenameList(1, a);
    assert session.lists[0].name == a;
    assert err == Some(ListNameTaken);
    err := session.RenameList(1, b);
    assert err == None;
  }
}
