/** The task record and the pure list operations the handlers of App.js build
    their new lists with: `filter`, `find`, the record spread that stamps a
    completion time, and the case-insensitive title search. */
module Tasks {
  import opened Text

  datatype Option<T> = None | Some(value: T)

  /** One to-do entry as App.js keeps it in memory and in storage. A task
      that has not been completed has no `completedTimestamp` field. */
  datatype Task = Task(id: int, title: string, timestamp: string, completedTimestamp: Option<string>)

  // ---------------------------------------------------------------------------
  // Array.prototype.filter and the order-preserving subsequence relation
  // ---------------------------------------------------------------------------

  /** Array `filter`: the elements of `s` that satisfy `p`, front to back. */
  function Filter<T>(s: seq<T>, p: T -> bool): (r: seq<T>)
    ensures |r| <= |s|
    ensures forall x :: x in r ==> x in s && p(x)
  {
    if s == [] then [] else (if p(s[0]) then [s[0]] else []) + Filter(s[1..], p)
  }

  /** `a` can be obtained from `b` by deleting elements, without reordering. */
  predicate IsSubsequence<T(==)>(a: seq<T>, b: seq<T>)
    decreases |b|
  {
    a == [] || (b != [] && if a[0] == b[0] then IsSubsequence(a[1..], b[1..]) else IsSubsequence(a, b[1..]))
  }

  /** An element is kept exactly when it is in the input and satisfies `p`. */
  lemma {:induction false} FilterMembership<T>(s: seq<T>, p: T -> bool, x: T)
    ensures x in Filter(s, p) <==> x in s && p(x)
  {
    if s != [] {
      FilterMembership(s[1..], p, x);
      assert s == [s[0]] + s[1..];
    }
  }

  /** Every occurrence of a kept element survives, and nothing else does:
      the multiset of the result is the input's restricted to `p`. */
  lemma {:induction false} FilterCounts<T>(s: seq<T>, p: T -> bool, x: T)
    ensures multiset(Filter(s, p))[x] == if p(x) then multiset(s)[x] else 0
  {
    if s != [] {
      FilterCounts(s[1..], p, x);
      assert s == [s[0]] + s[1..];
    }
  }

  /** The result keeps the input's order. */
  lemma {:induction false} FilterIsSubsequence<T>(s: seq<T>, p: T -> bool)
    ensures IsSubsequence(Filter(s, p), s)
  {
    if s != [] {
      FilterIsSubsequence(s[1..], p);
      var r := Filter(s, p);
      if p(s[0]) {
        assert r[0] == s[0] && r[1..] == Filter(s[1..], p);
      } else {
        assert r == Filter(s[1..], p);
        SubsequenceOfTail(r, s);
      }
    }
  }

  /** Prepending an element to `b` keeps every subsequence of `b`. */
  lemma {:induction false} SubsequenceOfTail<T>(a: seq<T>, b: seq<T>)
    requires b != [] && IsSubsequence(a, b[1..])
    ensures IsSubsequence(a, b)
    decreases |b|, 0
  {
    if a != [] && a[0] == b[0] {
      SubsequenceDropFirst(a, b[1..]);
    }
  }

  /** Dropping the first element of a subsequence leaves a subsequence. */
  lemma {:induction false} SubsequenceDropFirst<T>(a: seq<T>, b: seq<T>)
    requires a != [] && IsSubsequence(a, b)
    ensures IsSubsequence(a[1..], b)
    decreases |b|, 1
  {
    if a[1..] != [] {
      if a[0] != b[0] {
        SubsequenceDropFirst(a, b[1..]);
      }
      SubsequenceOfTail(a[1..], b);
    }
  }

  /** Filtering distributes over concatenation. */
  lemma {:induction false} FilterAppend<T>(a: seq<T>, b: seq<T>, p: T -> bool)
    ensures Filter(a + b, p) == Filter(a, p) + Filter(b, p)
  {
    if a != [] {
      FilterAppend(a[1..], b, p);
      assert (a + b)[1..] == a[1..] + b;
    } else {
      assert a + b == b;
    }
  }

  /** When every element passes, filtering returns the list unchanged. */
  lemma {:induction false} FilterKeepsAll<T>(s: seq<T>, p: T -> bool)
    requires forall x :: x in s ==> p(x)
    ensures Filter(s, p) == s
  {
    if s != [] {
      FilterKeepsAll(s[1..], p);
      assert s == [s[0]] + s[1..];
    }
  }

  /** Filtering twice with the same predicate is filtering once. */
  lemma FilterIdempotent<T>(s: seq<T>, p: T -> bool)
    ensures Filter(Filter(s, p), p) == Filter(s, p)
  {
    FilterKeepsAll(Filter(s, p), p);
  }

  // ---------------------------------------------------------------------------
  // Lookup and removal by id (App.js `find` and `filter` on `id`)
  // ---------------------------------------------------------------------------

  predicate HasId(s: seq<Task>, id: int)
  {
    exists t :: t in s && t.id == id
  }

  /** Position `i` holds the first task of `s` whose id is `id`. */
  predicate FirstWithId(s: seq<Task>, id: int, i: int)
  {
    0 <= i < |s| && s[i].id == id && forall j :: 0 <= j < i ==> s[j].id != id
  }

  /** Array `find` on the id: the first task with that id, if any. */
  function FindById(s: seq<Task>, id: int): (r: Option<Task>)
    ensures r.None? <==> !HasId(s, id)
    ensures r.Some? ==> exists i :: FirstWithId(s, id, i) && s[i] == r.value
  {
    if s == [] then None
    else if s[0].id == id then (assert FirstWithId(s, id, 0); Some(s[0]))
    else
      var r := FindById(s[1..], id);
      if r.Some? then
        var i :| FirstWithId(s[1..], id, i) && s[1..][i] == r.value;
        assert FirstWithId(s, id, i + 1);
        r
      else
        assert forall t :: t in s ==> t == s[0] || t in s[1..];
        r
  }

  /** The test the removal filters apply: the task's id differs from `id`. */
  function IdIsNot(id: int): Task -> bool
  {
    (t: Task) => t.id != id
  }

  /** Array `filter` on the id: every task with that id removed. */
  function WithoutId(s: seq<Task>, id: int): seq<Task>
  {
    Filter(s, IdIsNot(id))
  }

  /** `WithoutId` keeps exactly the tasks whose id differs, in their order,
      and leaves the list as it is when no task has the id. */
  lemma WithoutIdSpec(s: seq<Task>, id: int)
    ensures forall t :: t in WithoutId(s, id) <==> t in s && t.id != id
    ensures IsSubsequence(WithoutId(s, id), s)
    ensures !HasId(s, id) ==> WithoutId(s, id) == s
    ensures !HasId(WithoutId(s, id), id)
  {
    forall t ensures t in WithoutId(s, id) <==> t in s && t.id != id {
      FilterMembership(s, IdIsNot(id), t);
    }
    FilterIsSubsequence(s, IdIsNot(id));
    if !HasId(s, id) {
      FilterKeepsAll(s, IdIsNot(id));
    }
  }

  predicate UniqueIds(s: seq<Task>)
  {
    forall i, j :: 0 <= i < j < |s| ==> s[i].id != s[j].id
  }

  /** With unique ids, the task with a present id sits at exactly one
      position `i`; removing by id cuts out that one position, and `find`
      returns the task found there. */
  lemma RemoveUnique(s: seq<Task>, id: int) returns (i: nat)
    requires UniqueIds(s) && HasId(s, id)
    ensures i < |s| && s[i].id == id && FindById(s, id) == Some(s[i])
    ensures WithoutId(s, id) == s[..i] + s[i + 1..]
    ensures |WithoutId(s, id)| == |s| - 1
  {
    var r := FindById(s, id);
    i :| FirstWithId(s, id, i) && s[i] == r.value;
    var before, after := s[..i], s[i + 1..];
    forall t | t in before ensures t.id != id {
      var j :| 0 <= j < |before| && before[j] == t;
      assert s[j] == t;
    }
    forall t | t in after ensures t.id != id {
      var j :| 0 <= j < |after| && after[j] == t;
      assert s[i].id != s[i + 1 + j].id;
    }
    assert s == before + [s[i]] + after;
    WithoutIdSingle(before, s[i], after, id);
  }

  /** Removing by id when exactly one task, `t`, carries that id. */
  lemma WithoutIdSingle(before: seq<Task>, t: Task, after: seq<Task>, id: int)
    requires t.id == id && !HasId(before, id) && !HasId(after, id)
    ensures WithoutId(before + [t] + after, id) == before + after
  {
    var p := IdIsNot(id);
    calc {
      Filter(before + [t] + after, p);
      { FilterAppend(before + [t], after, p); }
      Filter(before + [t], p) + Filter(after, p);
      { FilterAppend(before, [t], p); }
      Filter(before, p) + Filter([t], p) + Filter(after, p);
      { assert Filter([t], p) == []; FilterKeepsAll(before, p); FilterKeepsAll(after, p); }
      before + [] + after;
    }
    assert before + [] + after == before + after;
  }

  // ---------------------------------------------------------------------------
  // New and completed tasks (App.js:80-85, 95-96)
  // ---------------------------------------------------------------------------

  /** The record `handleAddTodo` appends: its id is the current list length
      and its title the input exactly as typed. */
  function NewTodo(todos: seq<Task>, title: string, now: string): Task
  {
    Task(|todos|, title, now, None)
  }

  /** The same task, now carrying a completion time. */
  function Stamp(t: Task, now: string): Task
  {
    t.(completedTimestamp := Some(now))
  }

  /** No task of `s` carries a completion time: the shape of the active list. */
  predicate AllActive(s: seq<Task>)
  {
    forall t :: t in s ==> t.completedTimestamp.None?
  }

  /** Every task of `s` carries a completion time: the shape of the completed list. */
  predicate AllCompleted(s: seq<Task>)
  {
    forall t :: t in s ==> t.completedTimestamp.Some?
  }

  /** Ids equal positions: the shape of a list built by `handleAddTodo` alone. */
  predicate IdsArePositions(s: seq<Task>)
  {
    forall i :: 0 <= i < |s| ==> s[i].id == i
  }

  /** As long as tasks are only ever added, ids equal positions and are
      therefore unique. */
  lemma AddKeepsIdsPositions(s: seq<Task>, title: string, now: string)
    requires IdsArePositions(s)
    ensures IdsArePositions(s + [NewTodo(s, title, now)])
    ensures UniqueIds(s + [NewTodo(s, title, now)])
  {
  }

  /** Ids taken from the list length collide once a task has been completed:
      add, add, complete task 0, add leaves two active tasks with id 1, and
      completing id 1 then removes both while `find` picks only the first. */
  lemma IdCollision(a: string, b: string, c: string, t1: string, t2: string, t3: string)
    ensures
      var s1 := [] + [NewTodo([], a, t1)];
      var s2 := s1 + [NewTodo(s1, b, t2)];
      var s3 := WithoutId(s2, 0);
      var s4 := s3 + [NewTodo(s3, c, t3)];
      && s3 == [Task(1, b, t2, None)]
      && s4 == [Task(1, b, t2, None), Task(1, c, t3, None)]
      && !UniqueIds(s4)
      && WithoutId(s4, 1) == []
      && FindById(s4, 1) == Some(Task(1, b, t2, None))
  {
    var x0, x1, x2 := Task(0, a, t1, None), Task(1, b, t2, None), Task(1, c, t3, None);
    assert [x0, x1][1..] == [x1] && [x1][1..] == [];
    assert WithoutId([x1], 0) == [x1];
    assert WithoutId([x0, x1], 0) == [x1];
    assert [x1, x2][1..] == [x2] && [x2][1..] == [];
    assert WithoutId([x2], 1) == [];
    assert WithoutId([x1, x2], 1) == [];
  }

  // ---------------------------------------------------------------------------
  // Title search (App.js:224-226, 263-265)
  // ---------------------------------------------------------------------------

  /** A task matches when its lowered title includes the lowered query. */
  function TitleMatches(query: string): Task -> bool
  {
    (t: Task) => Contains(Lower(t.title), Lower(query))
  }

  /** The tasks the list view shows for a search text. */
  function Search(s: seq<Task>, query: string): seq<Task>
  {
    Filter(s, TitleMatches(query))
  }

  /** The search returns, in their original order and with their original
      multiplicity, exactly the tasks whose lowered title has the lowered
      query as a substring. */
  lemma SearchSpec(s: seq<Task>, query: string)
    ensures forall t :: t in Search(s, query) <==>
      t in s && exists k :: OccursAt(Lower(t.title), Lower(query), k)
    ensures forall t :: multiset(Search(s, query))[t] ==
                        (if Contains(Lower(t.title), Lower(query)) then multiset(s)[t] else 0)
    ensures forall t :: t in Search(s, query) <==> t in s && Contains(Lower(t.title), Lower(query))
    ensures IsSubsequence(Search(s, query), s)
  {
    forall t ensures t in Search(s, query) <==> t in s && Contains(Lower(t.title), Lower(query)) {
      FilterMembership(s, TitleMatches(query), t);
    }
    forall t ensures t in Search(s, query) <==>
      t in s && exists k :: OccursAt(Lower(t.title), Lower(query), k)
    {
      FilterMembership(s, TitleMatches(query), t);
      ContainsIffOccurs(Lower(t.title), Lower(query));
    }
    forall t ensures multiset(Search(s, query))[t] ==
      if Contains(Lower(t.title), Lower(query)) then multiset(s)[t] else 0
    {
      FilterCounts(s, TitleMatches(query), t);
    }
    FilterIsSubsequence(s, TitleMatches(query));
  }

  /** An empty search text shows the whole list, in order. */
  lemma SearchEmptyQuery(s: seq<Task>)
    ensures Search(s, "") == s
  {
    forall t | t in s ensures TitleMatches("")(t) {
      ContainsEmpty(Lower(t.title));
    }
    FilterKeepsAll(s, TitleMatches(""));
  }

  /** Searching the search result again with the same text changes nothing. */
  lemma SearchIdempotent(s: seq<Task>, query: string)
    ensures Search(Search(s, query), query) == Search(s, query)
  {
    FilterIdempotent(s, TitleMatches(query));
  }

  /** Appending a task appends it to the shown list exactly when its title matches. */
  lemma SearchAppend(s: seq<Task>, t: Task, query: string)
    ensures Search(s + [t], query) ==
      Search(s, query) + if Contains(Lower(t.title), Lower(query)) then [t] else []
  {
    FilterAppend(s, [t], TitleMatches(query));
    assert [t][1..] == [];
  }

  /** The case the search text is typed in does not change the rows shown. */
  lemma SearchIgnoresQueryCase(s: seq<Task>, query: string)
    ensures Search(s, Upper(query)) == Search(s, query)
  {
    LowerIgnoresCase(query);
    assert TitleMatches(Upper(query)) == TitleMatches(query);
  }

  /** Every shown task's id belongs to a task of the list, so the check-mark
      button of a shown row always hands `handleDeleteTodo` a present id. */
  lemma ShownIdsAreListed(s: seq<Task>, query: string, t: Task)
    requires t in Search(s, query)
    ensures HasId(s, t.id)
  {
  }
}
