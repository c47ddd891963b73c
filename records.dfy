/** The records the application keeps in the session: lists of to-dos,
    identified only by their position in the session array. */
module Records {

  datatype Option<T> = None | Some(value: T)

  /** A to-do item: the hash `{ name:, completed: }`. */
  datatype Todo = Todo(name: string, completed: bool)

  /** A list: the hash `{ name:, todos: }`. */
  datatype TodoList = TodoList(name: string, todos: seq<Todo>)

  /** `Array#delete_at` on an index in range: the element goes, everything
      after it moves down one position. */
  function RemoveAt<T>(s: seq<T>, i: nat): (r: seq<T>)
    requires i < |s|
    ensures |r| == |s| - 1
    ensures forall k :: 0 <= k < i ==> r[k] == s[k]
    ensures forall k :: i <= k < |r| ==> r[k] == s[k + 1]
    ensures multiset(r) + multiset{s[i]} == multiset(s)
  {
    assert s == s[..i] + [s[i]] + s[i + 1..];
    s[..i] + s[i + 1..]
  }
}
