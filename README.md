# todos_tracker: the list manager, modelled in Dafny

The application keeps, in the user's session, an array of lists. Each list
is a record `{ name, todos }` and each to-do a record `{ name, completed }`.
Lists and to-dos have no identifiers: a request names them by their position
in the session arrays. Deleting one therefore moves everything after it down
one position.

The model has five modules:

- `Records` (records.dfy): the two records, an `Option`, and `delete_at` as
  `RemoveAt`.
- `Text` (text.dfy): Ruby's `String#strip`, which the create, rename and
  add-to-do handlers apply to their form field.
- `Validation` (validation.dfy): the three validators with their exact
  messages. It also proves that creating, renaming and deleting lists keep
  the list names unique and 1 to 100 characters long.
- `Views` (views.dfy): the template helpers `total_todos`,
  `incomplete_todos`, `completed_list?` and `list_class`, and the two ordering
  views `sorted_lists` and `sorted_todos`.
  - Each view is specified by a function, `SortedView`.
  - Each view is also implemented as the source runs it, one loop per step:
    `partition`, then `each` with `index` over the incomplete half, then over
    the complete half.
  - The lemmas prove four things: the view yields every element exactly once;
    incomplete elements come first; each half keeps the original order; and
    every yielded index is the first position of an equal element.
- `Sessions` (session.dfy): the `Session` class holds `lists` and the two
  flash-message slots. It has one method per POST handler. Each method states
  the whole new state in terms of the old one. The class predicate `Valid()`
  (unique, valid-length names) is kept by every handler. `ListsView` relies
  on it: with unique names, every index that `sorted_lists` yields is that
  list's own position, and no position is yielded twice. Duplicate to-dos,
  by contrast, share the first one's index.
  - Each slot records which message is set: an `Error` for
    `session[:error]`, a `Notice` for `session[:success]`. `Message` and
    `NoticeText` give the exact texts, and each is proved one-to-one.
  - Walk-through methods at the end replay the usual sessions for any
    trimmed names: a list whose to-dos are completed one by one, and a
    rename onto a taken name.

The add-to-do handler validates the stripped parameter but stores the raw
one. So a to-do can be stored with surrounding whitespace, or with more than
100 characters, as long as its stripped form has 1 to 100. The model keeps
this behaviour: `Session.AddTodo` stores the parameter as given.
`PaddedTodoPasses` shows that a 99- or 100-character text padded with one
space on each side is accepted, and is stored with 101 or 102 characters.

The handlers address lists and to-dos by `to_i` positions with no bounds
check; there are no ids.

## Model

| member | source | states |
|---|---|---|
| Records.RemoveAt | todo.rb:116 | `delete_at` on an index in range: length drops by one, earlier elements stay, later ones move down one place, and exactly the indexed element leaves the multiset |
| Text.TrimStart | todo.rb:93 | the result is a suffix of the input that does not start with whitespace, and everything dropped is whitespace |
| Text.TrimEnd | todo.rb:93 | the result is a prefix of the input that does not end with whitespace, and everything dropped is whitespace |
| Text.StripPadded | todo.rb:149 | one space on each side of a trimmed text is exactly what `strip` removes |
| Text.Strip | todo.rb:93 | `strip` gives the infix between leading and trailing whitespace: it is trimmed at both ends, it is empty iff the input is all whitespace, and it leaves an already trimmed string unchanged |
| Validation.MessagesDistinct | todo.rb:8-26 | the three error messages are pairwise different, so the stored text identifies the failed check |
| Validation.NameTaken | todo.rb:11 | the `any?` scan is true iff some list has exactly that name |
| Validation.ErrorForListName | todo.rb:8-14 | length error iff the size is outside 1..100; uniqueness error iff the length is fine and some list has an equal name; nil iff neither |
| Validation.ErrorForEditedList | todo.rb:16-20 | nil when the name equals the list's current name, otherwise exactly `error_for_list_name`; nil iff unchanged or a valid, unused name |
| Validation.ErrorForNewTodo | todo.rb:22-26 | nil iff the size is within 1..100, otherwise the to-do length error |
| Validation.CreateKeepsNames | todo.rb:92-103 | appending a list whose name passed validation keeps names unique and of valid length |
| Validation.RenameKeepsNames | todo.rb:132-145 | a rename that passed `error_for_edited_list` keeps names unique and of valid length |
| Validation.DeleteKeepsNames | todo.rb:114-119 | deleting a list keeps the remaining names unique and of valid length |
| Validation.SecondCreateIsRejected | todo.rb:8-14 | after a successful create, creating the same name again gets the uniqueness error |
| Views.TotalTodos | todo.rb:42-44 | the total is the size of the incomplete half plus the complete half of the partition |
| Views.IncompleteTodos | todo.rb:46-48 | `incomplete_todos` is the size of the incomplete half of the partition, and at most the total |
| Views.CountIncomplete | todo.rb:46-48 | the incomplete count is at most the total, is zero iff every to-do is completed, and equals the total iff none is |
| Views.IsCompletedList | todo.rb:38-40 | `completed_list?` holds iff the list has at least one to-do and every to-do is completed |
| Views.ListClass | todo.rb:50-54 | "complete" exactly for a completed list, nil otherwise |
| Views.IndexOf | todo.rb:58-59 | `index` returns the first position holding an equal element; it returns nil (here the length) iff there is none |
| Views.Select | todo.rb:57 | each half of `partition` holds only elements on its side of the predicate |
| Views.Tag | todo.rb:58-59 | each element of a group is paired with its `index` in the whole array |
| Views.SelectSplits | todo.rb:63 | the two halves of `partition` together are a permutation of the input |
| Views.Positions | todo.rb:57 | the positions on one side of the predicate: each such position exactly once, strictly ascending |
| Views.SelectIsOrderedSubsequence | todo.rb:57 | each half is the input read at exactly those ascending positions, so relative order is kept and nothing on that side is lost |
| Views.SelectIdempotent | todo.rb:63 | selecting a half again changes nothing |
| Views.SortedView | todo.rb:56-66 | the view has one entry per element, and every yielded index is in range and holds the yielded element |
| Views.SortedViewIsPermutation | todo.rb:56-60 | the view yields every element exactly as often as it occurs |
| Views.SortedViewGroups | todo.rb:62-66 | the view yields the incomplete half then the complete half, each in original order; a position is incomplete iff it is before the split |
| Views.SortedViewIndex | todo.rb:58-59 | every yielded index is in range, holds an equal element, and no earlier position does, so equal duplicates share the first one's index |
| Views.SortedViewIdempotent | todo.rb:56-66 | sorting the yielded elements again yields them in the same order |
| Views.ViewIndicesArePositions | todo.rb:58-59 | when every element is its own first occurrence, the yielded indices are the incomplete positions followed by the complete positions |
| Views.PositionsDistinct | todo.rb:57 | the positions of the two halves, one after the other, never repeat |
| Views.CountIncompleteIsSelect | todo.rb:46-48 | the incomplete count equals the size of the incomplete half of the `sorted_todos` partition |
| Views.FirstIndex | todo.rb:64 | the linear scan of `index` returns the `IndexOf` position |
| Views.YieldEach | todo.rb:64-65 | one `each`/`yield` loop appends exactly the tagged group |
| Views.Partition | todo.rb:63 | the one-pass `partition` returns exactly the complete and the incomplete halves |
| Views.Sorted | todo.rb:62-66 | the partition-then-yield loops produce exactly `SortedView` |
| Views.SortedLists | todo.rb:56-60 | `sorted_lists` is `SortedView` on `completed_list?` |
| Views.SortedTodos | todo.rb:62-66 | `sorted_todos` is `SortedView` on the `completed` flag |
| Sessions.Deleted | todo.rb:117 | the "was deleted" notice is 14 characters longer than the name, and the name can be read back from it |
| Sessions.NoticeTextInjective | todo.rb:100-181 | different success notices have different texts |
| Sessions.PaddedTodoPasses | todo.rb:149-157 | a padded trimmed text passes the to-do check, although a 99- or 100-character text padded this way is itself too long |
| Sessions.UniqueNamesOwnIndex | todo.rb:58-59 | with unique names, `lists.index(list)` is the list's own position |
| Sessions.SortedListsIndicesArePositions | todo.rb:56-60 | with unique names, `sorted_lists` yields the incomplete positions, then the completed positions, ascending, each once |
| Sessions.AllDone | todo.rb:178-180 | every to-do is marked completed and keeps its name and place |
| Sessions.CompleteAllCompletesList | todo.rb:175-183 | after "complete all" the list is completed iff it has a to-do, and its incomplete count is zero |
| Sessions.ToggleCount | todo.rb:164-172 | setting one flag changes the incomplete count by the old flag's contribution and the new one's, and nothing else |
| Sessions.Session.constructor | todo.rb:33-35 | the `before` hook's empty lists array and no messages; the invariant holds |
| Sessions.Session.ListsView | todo.rb:56-60 | `sorted_lists` over the session: under the invariant, each yielded index is its own list's position and no position repeats |
| Sessions.Session.CreateList | todo.rb:92-103 | validates the stripped name; on success appends exactly `{name, []}` and sets the success message, otherwise leaves the lists unchanged and sets the error; the invariant holds |
| Sessions.Session.RenameList | todo.rb:132-145 | validates with `error_for_edited_list`; on success only that list's name changes, otherwise nothing changes but the error message |
| Sessions.Session.DeleteList | todo.rb:114-119 | returns the removed list, removes exactly that position, and sets the "was deleted" message |
| Sessions.Session.AddTodo | todo.rb:148-161 | validates the stripped text; on success appends `{raw text, false}` to that list only, otherwise changes no list |
| Sessions.Session.DeleteTodo | todo.rb:122-129 | returns the removed to-do, removes exactly that position of that list, and leaves the other lists unchanged |
| Sessions.Session.ToggleTodo | todo.rb:164-172 | only the indexed to-do's flag changes, to whether the parameter is "true" |
| Sessions.Session.CompleteAll | todo.rb:175-183 | the loop marks every to-do of that list completed; names, counts and other lists are unchanged |

## Left out

- Routing, `redirect`, `erb` rendering, `configure` and the session secret are
  not modelled. The GET handlers only read the session and change nothing.
  They are not modelled, except that `Session.ListsView` stands for the
  `sorted_lists` walk in the GET /lists template.
- The flash messages are modelled as two slots that handlers set. Each slot
  holds the kind of message; its text is `Message` or `NoticeText`, both
  proved one-to-one. Showing a message once and then clearing it happens in
  the templates, which are not part of this model.
- `String#to_i` is not modelled. Indices are natural numbers. Ruby would also
  accept a negative index (counted from the end) or a non-numeric segment
  (read as 0); neither path is modelled.
- The code crashes on an out-of-range index, because it dereferences nil. The
  model makes an in-range index a precondition of each handler.
- In Ruby, lists and to-dos are shared mutable hashes, so the handlers write
  through aliases. The model uses values and writes the new record back into
  the session array. No handler lets the aliasing show.
- Text.Strip: removes whitespace (including NUL) at both ends, as current
  Ruby does. Older Ruby versions kept a leading NUL; that case is not
  modelled.
- Sessions.Session.ToggleTodo: the `completed` parameter is a string. A
  missing parameter (nil in Ruby) behaves like any string other than "true".
- Validation.ErrorForNewTodo: drops the list argument, which the source
  accepts but never reads.
