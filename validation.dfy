/** The three validators that guard list and to-do names. */
module Validation {
  import opened Records

  datatype Error = ListNameLength | ListNameTaken | TodoNameLength

  /** The message the application stores for each error. */
  function Message(e: Error): string {
    match e
    case ListNameLength => "List name must be between 1 and 100 characters long"
    case ListNameTaken => "List name must be unique"
    case TodoNameLength => "Todo must be between 1 and 100 characters long"
  }

  /** Each error has its own message, so the message shown identifies the
      check that failed. */
  lemma MessagesDistinct()
    ensures forall e, f :: Message(e) == Message(f) ==> e == f
  {
  }

  /** `(1..100).cover? name.size` */
  predicate ValidLength(name: string) {
    1 <= |name| <= 100
  }

  /** `lists.any? { |list| list[:name] == name }`, scanned from the front. */
  function NameTaken(lists: seq<TodoList>, name: string): (r: bool)
    ensures r <==> exists k :: 0 <= k < |lists| && lists[k].name == name
  {
    if lists == [] then false
    else lists[0].name == name || NameTaken(lists[1..], name)
  }

  /** `error_for_list_name`: the length test comes first, the uniqueness test
      (exact equality against every current list) second. */
  function ErrorForListName(lists: seq<TodoList>, name: string): (r: Option<Error>)
    ensures r == Some(ListNameLength) <==> !(1 <= |name| <= 100)
    ensures r == Some(ListNameTaken) <==>
              1 <= |name| <= 100 && exists k :: 0 <= k < |lists| && lists[k].name == name
    ensures r == None <==>
              1 <= |name| <= 100 && forall k :: 0 <= k < |lists| ==> lists[k].name != name
  {
    if !ValidLength(name) then Some(ListNameLength)
    else if NameTaken(lists, name) then Some(ListNameTaken)
    else None
  }

  /** `error_for_edited_list`: keeping the list's own name is always accepted;
      any other name goes through `error_for_list_name`. */
  function ErrorForEditedList(lists: seq<TodoList>, listId: nat, name: string): (r: Option<Error>)
    requires listId < |lists|
    ensures name == lists[listId].name ==> r == None
    ensures name != lists[listId].name ==> r == ErrorForListName(lists, name)
    ensures r == None <==>
              name == lists[listId].name ||
              (1 <= |name| <= 100 && forall k :: 0 <= k < |lists| ==> lists[k].name != name)
  {
    if name == lists[listId].name then None else ErrorForListName(lists, name)
  }

  /** `error_for_new_todo`: a length test only (its list argument is unused). */
  function ErrorForNewTodo(todo: string): (r: Option<Error>)
    ensures r == None <==> 1 <= |todo| <= 100
    ensures r != None ==> r == Some(TodoNameLength)
  {
    if !ValidLength(todo) then Some(TodoNameLength) else None
  }

  /** No two lists in the session share a name. */
  predicate NamesUnique(lists: seq<TodoList>) {
    forall j, k :: 0 <= j < k < |lists| ==> lists[j].name != lists[k].name
  }

  /** Every list name is between 1 and 100 characters long. */
  predicate NamesValid(lists: seq<TodoList>) {
    forall k :: 0 <= k < |lists| ==> ValidLength(lists[k].name)
  }

  /** Appending a list whose name passed `error_for_list_name` keeps the names
      unique and of valid length. */
  lemma CreateKeepsNames(lists: seq<TodoList>, name: string)
    requires ErrorForListName(lists, name) == None
    ensures NamesUnique(lists) ==> NamesUnique(lists + [TodoList(name, [])])
    ensures NamesValid(lists) ==> NamesValid(lists + [TodoList(name, [])])
  {
  }

  /** Renaming a list to a name that passed `error_for_edited_list` keeps the
      names unique and of valid length. */
  lemma RenameKeepsNames(lists: seq<TodoList>, listId: nat, name: string)
    requires listId < |lists|
    requires ErrorForEditedList(lists, listId, name) == None
    ensures NamesUnique(lists) ==> NamesUnique(lists[listId := lists[listId].(name := name)])
    ensures NamesValid(lists) ==> NamesValid(lists[listId := lists[listId].(name := name)])
  {
  }

  /** Deleting a list keeps the remaining names unique and of valid length. */
  lemma DeleteKeepsNames(lists: seq<TodoList>, listId: nat)
    requires listId < |lists|
    ensures NamesUnique(lists) ==> NamesUnique(RemoveAt(lists, listId))
    ensures NamesValid(lists) ==> NamesValid(RemoveAt(lists, listId))
  {
  }

  /** A list name that passed `error_for_list_name` is absent from the
      session, so creating it and then creating it again fails on the second
      try with the uniqueness error. */
  lemma SecondCreateIsRejected(lists: seq<TodoList>, name: string)
    requires ErrorForListName(lists, name) == None
    ensures ErrorForListName(lists + [TodoList(name, [])], name) == Some(ListNameTaken)
  {
    assert (lists + [TodoList(name, [])])[|lists|].name == name;
  }
}
