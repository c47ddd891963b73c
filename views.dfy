/** The view helpers: counts, `completed_list?`, `list_class`, and the
    ordered views `sorted_lists` / `sorted_todos`. */
module Views {
  import opened Records

  /** `total_todos`: every to-do is on exactly one side of the `completed`
      partition, so the total is the size of the two halves together. */
  function TotalTodos(list: TodoList): (r: nat)
    ensures r == |Select(list.todos, IsDone, false)| + |Select(list.todos, IsDone, true)|
  {
    SelectSplits(list.todos, IsDone);
    assert |multiset(list.todos)| == |list.todos|;
    |list.todos|
  }

  /** `todos.count { |todo| !todo[:completed] }` */
  function CountIncomplete(todos: seq<Todo>): (r: nat)
    ensures r <= |todos|
    ensures r == 0 <==> forall k :: 0 <= k < |todos| ==> todos[k].completed
    ensures r == |todos| <==> forall k :: 0 <= k < |todos| ==> !todos[k].completed
  {
    if todos == [] then 0
    else CountIncomplete(todos[..|todos| - 1]) + (if todos[|todos| - 1].completed then 0 else 1)
  }

  /** `incomplete_todos`: the number of to-dos in the incomplete half of the
      partition `sorted_todos` shows first, never more than the total. */
  function IncompleteTodos(list: TodoList): (r: nat)
    ensures r == |Select(list.todos, IsDone, false)|
    ensures r <= TotalTodos(list)
  {
    CountIncompleteIsSelect(list.todos);
    CountIncomplete(list.todos)
  }

  /** `completed_list?`: at least one to-do, and none of them incomplete. */
  function IsCompletedList(list: TodoList): (r: bool)
    ensures r <==> |list.todos| > 0 && forall k :: 0 <= k < |list.todos| ==> list.todos[k].completed
  {
    TotalTodos(list) > 0 && IncompleteTodos(list) == 0
  }

  /** `list_class`: the CSS class "complete" for a completed list, else nil. */
  function ListClass(list: TodoList): (r: Option<string>)
    ensures r != None <==> |list.todos| > 0 && forall k :: 0 <= k < |list.todos| ==> list.todos[k].completed
    ensures r != None ==> r == Some("complete")
  {
    if IsCompletedList(list) then Some("complete") else None
  }

  /** The completion predicate `sorted_todos` partitions on. */
  function IsDone(todo: Todo): bool {
    todo.completed
  }

  /** `Array#index`: the first position holding `x`, or `|s|` (Ruby's nil)
      when there is none. */
  function IndexOf<T(==)>(s: seq<T>, x: T): (r: nat)
    ensures r <= |s|
    ensures r < |s| <==> x in s
    ensures r < |s| ==> s[r] == x
    ensures forall j :: 0 <= j < r ==> s[j] != x
  {
    if s == [] then 0
    else if s[0] == x then 0
    else 1 + IndexOf(s[1..], x)
  }

  /** The elements of `s` whose `done` value is `want`, in their order in `s`:
      one half of `Array#partition`. */
  function Select<T>(s: seq<T>, done: T -> bool, want: bool): (r: seq<T>)
    ensures |r| <= |s|
    ensures forall k :: 0 <= k < |r| ==> done(r[k]) == want
  {
    if s == [] then []
    else Select(s[..|s| - 1], done, want) + (if done(s[|s| - 1]) == want then [s[|s| - 1]] else [])
  }

  /** The positions of `s` whose element has `done` value `want`: exactly
      those positions, each once, in ascending order. */
  function Positions<T>(s: seq<T>, done: T -> bool, want: bool): (r: seq<nat>)
    ensures forall k :: 0 <= k < |r| ==> r[k] < |s| && done(s[r[k]]) == want
    ensures forall j, k :: 0 <= j < k < |r| ==> r[j] < r[k]
    ensures forall i :: 0 <= i < |s| && done(s[i]) == want ==> i in r
  {
    if s == [] then []
    else
      var p := Positions(s[..|s| - 1], done, want);
      assert forall k :: 0 <= k < |p| ==> s[p[k]] == s[..|s| - 1][p[k]];
      p + (if done(s[|s| - 1]) == want then [|s| - 1] else [])
  }

  /** Pairs every element of `group` with its first position in `s`: what the
      `each { |x| yield x, s.index(x) }` loops hand to the template. */
  function Tag<T(==)>(s: seq<T>, group: seq<T>): (r: seq<(T, nat)>)
    ensures |r| == |group|
    ensures forall k :: 0 <= k < |group| ==> r[k] == (group[k], IndexOf(s, group[k]))
  {
    if group == [] then []
    else Tag(s, group[..|group| - 1]) + [(group[|group| - 1], IndexOf(s, group[|group| - 1]))]
  }

  /** What `sorted_lists` / `sorted_todos` yield, in order: the elements failing
      `done`, then those satisfying it, each with its `index` in `s`. */
  function SortedView<T(==)>(s: seq<T>, done: T -> bool): (r: seq<(T, nat)>)
    ensures |r| == |s|
    ensures forall k :: 0 <= k < |r| ==> r[k].1 < |s| && s[r[k].1] == r[k].0
  {
    var g := Select(s, done, false) + Select(s, done, true);
    SelectSplits(s, done);
    assert |multiset(g)| == |g| && |multiset(s)| == |s|;
    GroupInInput(s, g);
    Tag(s, g)
  }

  /** Every element of a group with the same multiset as `s` occurs in `s`. */
  lemma GroupInInput<T>(s: seq<T>, g: seq<T>)
    requires multiset(g) == multiset(s)
    ensures forall k :: 0 <= k < |g| ==> g[k] in s
  {
    forall k | 0 <= k < |g| ensures g[k] in s {
      assert g[k] in multiset(g);
    }
  }

  /** The first components of a view. */
  function Items<T>(v: seq<(T, nat)>): (r: seq<T>)
    ensures |r| == |v| && forall k :: 0 <= k < |v| ==> r[k] == v[k].0
  {
    seq(|v|, k requires 0 <= k < |v| => v[k].0)
  }

  // ---------------------------------------------------------------------------
  // Properties of the partition

  /** The two halves of the partition together hold every element of `s`
      exactly as often as `s` does. */
  lemma {:induction false} SelectSplits<T>(s: seq<T>, done: T -> bool)
    ensures multiset(Select(s, done, false)) + multiset(Select(s, done, true)) == multiset(s)
  {
    if s != [] {
      var init, x := s[..|s| - 1], s[|s| - 1];
      SelectSplits(init, done);
      assert s == init + [x];
      assert multiset(s) == multiset(init) + multiset{x};
      if done(x) {
        assert Select(s, done, true) == Select(init, done, true) + [x];
        assert Select(s, done, false) == Select(init, done, false);
      } else {
        assert Select(s, done, true) == Select(init, done, true);
        assert Select(s, done, false) == Select(init, done, false) + [x];
      }
    }
  }

  /** `Select` keeps the elements at exactly the positions `Positions` lists:
      the kept elements stay in their original relative order, and no
      qualifying element is dropped. */
  lemma {:induction false} SelectIsOrderedSubsequence<T>(s: seq<T>, done: T -> bool, want: bool)
    ensures |Positions(s, done, want)| == |Select(s, done, want)|
    ensures forall k :: 0 <= k < |Positions(s, done, want)| ==>
              Select(s, done, want)[k] == s[Positions(s, done, want)[k]]
  {
    if s != [] {
      var init, x := s[..|s| - 1], s[|s| - 1];
      SelectIsOrderedSubsequence(init, done, want);
      var p, q := Positions(init, done, want), Select(init, done, want);
      if done(x) == want {
        var p', q' := p + [|s| - 1], q + [x];
        assert Positions(s, done, want) == p';
        assert Select(s, done, want) == q';
        forall k | 0 <= k < |p'| ensures q'[k] == s[p'[k]] {
          if k < |p| {
            assert q'[k] == q[k] == init[p[k]] && p'[k] == p[k];
          }
        }
      } else {
        assert Positions(s, done, want) == p;
        assert Select(s, done, want) == q;
        forall k | 0 <= k < |p| ensures q[k] == s[p[k]] {
          assert q[k] == init[p[k]];
        }
      }
    }
  }

  /** Selecting twice is selecting once: the partition is idempotent. */
  lemma {:induction false} SelectIdempotent<T>(s: seq<T>, done: T -> bool, want: bool)
    ensures Select(Select(s, done, want), done, want) == Select(s, done, want)
  {
    if s != [] {
      var init := s[..|s| - 1];
      SelectIdempotent(init, done, want);
      var q, x := Select(init, done, want), s[|s| - 1];
      if done(x) == want {
        assert Select(s, done, want) == q + [x];
        assert (q + [x])[..|q|] == q;
        assert Select(q + [x], done, want) == Select(q, done, want) + [x];
      } else {
        assert Select(s, done, want) == q;
      }
    }
  }

  /** `Select` distributes over concatenation. */
  lemma {:induction false} SelectAppend<T>(a: seq<T>, b: seq<T>, done: T -> bool, want: bool)
    ensures Select(a + b, done, want) == Select(a, done, want) + Select(b, done, want)
  {
    if b == [] {
      assert a + b == a;
    } else {
      var init := b[..|b| - 1];
      SelectAppend(a, init, done, want);
      assert (a + b)[..|a + b| - 1] == a + init;
    }
  }

  /** `Select` keeps a sequence whose elements all qualify. */
  lemma {:induction false} SelectAll<T>(s: seq<T>, done: T -> bool, want: bool)
    requires forall k :: 0 <= k < |s| ==> done(s[k]) == want
    ensures Select(s, done, want) == s
  {
    if s != [] {
      var init := s[..|s| - 1];
      SelectAll(init, done, want);
      assert Select(s, done, want) == init + [s[|s| - 1]];
    }
  }

  /** `Select` empties a sequence whose elements all fail. */
  lemma {:induction false} SelectNone<T>(s: seq<T>, done: T -> bool, want: bool)
    requires forall k :: 0 <= k < |s| ==> done(s[k]) != want
    ensures Select(s, done, want) == []
  {
    if s != [] {
      SelectNone(s[..|s| - 1], done, want);
    }
  }

  /** `Tag` distributes over concatenation of groups. */
  lemma TagAppend<T>(s: seq<T>, a: seq<T>, b: seq<T>)
    ensures Tag(s, a + b) == Tag(s, a) + Tag(s, b)
  {
  }

  // ---------------------------------------------------------------------------
  // Properties of the sorted view

  /** Every element of `s` is yielded, and as often as it occurs in `s`. */
  lemma SortedViewIsPermutation<T>(s: seq<T>, done: T -> bool)
    ensures |SortedView(s, done)| == |s|
    ensures multiset(Items(SortedView(s, done))) == multiset(s)
  {
    var g := Select(s, done, false) + Select(s, done, true);
    SelectSplits(s, done);
    assert |multiset(g)| == |g| && |multiset(s)| == |s|;
    assert Items(SortedView(s, done)) == g;
  }

  /** The elements failing `done` come first, in their original order; the
      elements satisfying it follow, in their original order. */
  lemma SortedViewGroups<T>(s: seq<T>, done: T -> bool)
    ensures Items(SortedView(s, done)) == Select(s, done, false) + Select(s, done, true)
    ensures forall k :: 0 <= k < |SortedView(s, done)| ==>
              (!done(SortedView(s, done)[k].0) <==> k < |Select(s, done, false)|)
  {
  }

  /** Each yielded index is the first position in `s` holding an equal
      element; so equal duplicates all report the first one's position. */
  lemma SortedViewIndex<T>(s: seq<T>, done: T -> bool)
    ensures forall k :: 0 <= k < |SortedView(s, done)| ==>
              var (x, i) := SortedView(s, done)[k];
              i < |s| && s[i] == x && forall j :: 0 <= j < i ==> s[j] != x
  {
  }

  /** Sorting what the view yields again yields it in the same order: the
      partition is idempotent. */
  lemma SortedViewIdempotent<T>(s: seq<T>, done: T -> bool)
    ensures Items(SortedView(Items(SortedView(s, done)), done)) == Items(SortedView(s, done))
  {
    var f, t := Select(s, done, false), Select(s, done, true);
    SortedViewGroups(s, done);
    var g := Items(SortedView(s, done));
    assert g == f + t;
    SelectAppend(f, t, done, false);
    SelectAppend(f, t, done, true);
    SelectAll(f, done, false);
    SelectNone(f, done, true);
    SelectNone(t, done, false);
    SelectAll(t, done, true);
    assert Select(g, done, false) == f && Select(g, done, true) == t;
    SortedViewGroups(g, done);
  }

  /** When every element is its own first occurrence, the view's indices are
      the positions of the failing elements followed by those of the
      satisfying ones. */
  lemma ViewIndicesArePositions<T>(s: seq<T>, done: T -> bool)
    requires forall k :: 0 <= k < |s| ==> IndexOf(s, s[k]) == k
    ensures |Positions(s, done, false) + Positions(s, done, true)| == |SortedView(s, done)|
    ensures forall k :: 0 <= k < |SortedView(s, done)| ==>
              SortedView(s, done)[k].1 == (Positions(s, done, false) + Positions(s, done, true))[k]
  {
    var v := SortedView(s, done);
    var f, t := Select(s, done, false), Select(s, done, true);
    var pf, pt := Positions(s, done, false), Positions(s, done, true);
    SelectIsOrderedSubsequence(s, done, false);
    SelectIsOrderedSubsequence(s, done, true);
    var g, p := f + t, pf + pt;
    forall k | 0 <= k < |v| ensures v[k].1 == p[k] {
      if k < |f| {
        assert g[k] == f[k] == s[pf[k]] && p[k] == pf[k];
      } else {
        assert g[k] == t[k - |f|] == s[pt[k - |f|]] && p[k] == pt[k - |f|];
      }
      assert v[k] == (g[k], IndexOf(s, g[k]));
    }
  }

  /** The positions of the two halves, one after the other, never repeat. */
  lemma PositionsDistinct<T>(s: seq<T>, done: T -> bool)
    ensures forall j, k :: 0 <= j < k < |Positions(s, done, false) + Positions(s, done, true)| ==>
              (Positions(s, done, false) + Positions(s, done, true))[j] !=
              (Positions(s, done, false) + Positions(s, done, true))[k]
  {
    var pf, pt := Positions(s, done, false), Positions(s, done, true);
    var p := pf + pt;
    forall j, k | 0 <= j < k < |p| ensures p[j] != p[k] {
      if k < |pf| {
        assert p[j] == pf[j] && p[k] == pf[k];
      } else if |pf| <= j {
        assert p[j] == pt[j - |pf|] && p[k] == pt[k - |pf|];
      } else {
        assert p[j] == pf[j] && p[k] == pt[k - |pf|];
        assert !done(s[pf[j]]) && done(s[pt[k - |pf|]]);
      }
    }
  }

  // ---------------------------------------------------------------------------
  // The loops of `sorted_lists` / `sorted_todos`

  /** `s.index(x)`: a linear scan from the front; `|s|` stands for nil. */
  method FirstIndex<T(==)>(s: seq<T>, x: T) returns (i: nat)
    ensures i == IndexOf(s, x)
  {
    i := 0;
    while i < |s| && s[i] != x
      invariant i <= |s|
      invariant forall j :: 0 <= j < i ==> s[j] != x
    {
      i := i + 1;
    }
  }

  /** One `each { |x| yield x, s.index(x) }` loop, appending to `acc`. */
  method YieldEach<T(==)>(s: seq<T>, group: seq<T>, acc: seq<(T, nat)>) returns (out: seq<(T, nat)>)
    ensures out == acc + Tag(s, group)
  {
    out := acc;
    var k := 0;
    while k < |group|
      invariant 0 <= k <= |group|
      invariant out == acc + Tag(s, group[..k])
    {
      var i := FirstIndex(s, group[k]);
      assert group[..k + 1][..k] == group[..k];
      out := out + [(group[k], i)];
      k := k + 1;
    }
    assert group[..|group|] == group;
  }

  /** `Array#partition`: one pass that splits `s` into the elements
      satisfying `done` and those failing it, each in its original order. */
  method Partition<T>(s: seq<T>, done: T -> bool) returns (complete: seq<T>, incomplete: seq<T>)
    ensures complete == Select(s, done, true)
    ensures incomplete == Select(s, done, false)
  {
    complete, incomplete := [], [];
    var i := 0;
    while i < |s|
      invariant 0 <= i <= |s|
      invariant complete == Select(s[..i], done, true)
      invariant incomplete == Select(s[..i], done, false)
    {
      assert s[..i + 1][..i] == s[..i];
      if done(s[i]) {
        complete := complete + [s[i]];
      } else {
        incomplete := incomplete + [s[i]];
      }
      i := i + 1;
    }
    assert s[..|s|] == s;
  }

  /** The shared body of `sorted_lists` and `sorted_todos`: partition, then
      yield the incomplete half, then the complete half. */
  method Sorted<T(==)>(s: seq<T>, done: T -> bool) returns (v: seq<(T, nat)>)
    ensures v == SortedView(s, done)
  {
    var complete, incomplete := Partition(s, done);
    v := YieldEach(s, incomplete, []);
    v := YieldEach(s, complete, v);
    TagAppend(s, incomplete, complete);
  }

  /** `sorted_lists`: incomplete lists first, then completed ones. */
  method SortedLists(lists: seq<TodoList>) returns (v: seq<(TodoList, nat)>)
    ensures v == SortedView(lists, IsCompletedList)
  {
    v := Sorted(lists, IsCompletedList);
  }

  /** `sorted_todos`: incomplete to-dos first, then completed ones. */
  method SortedTodos(todos: seq<Todo>) returns (v: seq<(Todo, nat)>)
    ensures v == SortedView(todos, IsDone)
  {
    v := Sorted(todos, IsDone);
  }

  /** The number of incomplete to-dos is the size of the incomplete half of
      the `sorted_todos` partition. */
  lemma {:induction false} CountIncompleteIsSelect(todos: seq<Todo>)
    ensures CountIncomplete(todos) == |Select(todos, IsDone, false)|
  {
    if todos != [] {
      CountIncompleteIsSelect(todos[..|todos| - 1]);
    }
  }
}
