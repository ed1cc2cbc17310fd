/**
 The dashboard's derived view: task counts and the completion rate, today's
 focus, and the "upcoming" list — the incomplete tasks (of the selected project,
 if any), ranked by priority, then starred, then due date, five at most.

 `Array.prototype.sort` is stable, so with a consistent comparator its result is
 determined: the sorted arrangement that keeps tied tasks in input order.
 `SortTasks` computes it by insertion, and `StableSortUnique` shows that any
 sorted arrangement keeping ties in order is that same sequence.
 */
module Dashboard {
  import opened Optional
  import opened Seqs
  import Focus
  import Stats

  datatype Priority = Low | Medium | High

  /** The comparator's `priorityOrder` table. */
  function Rank(p: Priority): int {
    match p
    case High => 3
    case Medium => 2
    case Low => 1
  }

  /** A row of `todos`; a due date is its `getTime()` value, and an empty one is None. */
  datatype Task = Task(
    id: string,
    title: string,
    description: Option<string>,
    emoji: Option<string>,
    priority: Priority,
    completed: bool,
    starred: bool,
    dueDate: Option<int>,
    projectId: Option<string>)

  /**
   The sort callback: negative when `a` goes first, positive when `b` does, 0 on a
   tie. Priority descending, then starred first, then earlier due date first,
   with undated tasks after dated ones.
   */
  function Compare(a: Task, b: Task): (r: int)
    ensures a.priority != b.priority ==> (r < 0 <==> Rank(a.priority) > Rank(b.priority))
    ensures a.priority == b.priority && a.starred != b.starred ==> (r < 0 <==> a.starred)
    ensures a.priority == b.priority && a.starred == b.starred && a.dueDate.Some? && b.dueDate.Some? ==>
              (r < 0 <==> a.dueDate.value < b.dueDate.value)
    ensures a.priority == b.priority && a.starred == b.starred && a.dueDate.Some? != b.dueDate.Some? ==>
              (r < 0 <==> a.dueDate.Some?)
    ensures r == 0 <==> a.priority == b.priority && a.starred == b.starred && a.dueDate == b.dueDate
  {
    var priorityDiff := Rank(b.priority) - Rank(a.priority);
    if priorityDiff != 0 then priorityDiff
    else if a.starred != b.starred then (if b.starred then 1 else -1)
    else match (a.dueDate, b.dueDate)
      case (Some(x), Some(y)) => x - y
      case (Some(_), None) => -1
      case (None, Some(_)) => 1
      case (None, None) => 0
  }

  /** `a` may precede `b`. */
  predicate Before(a: Task, b: Task) {
    Compare(a, b) <= 0
  }

  /** What the comparator looks at; two tasks tie exactly when these agree. */
  function Key(t: Task): (Priority, bool, Option<int>) {
    (t.priority, t.starred, t.dueDate)
  }

  /**
   The comparator is consistent in the sense `Array.prototype.sort` requires:
   swapping the arguments flips the sign, ties are exactly equal keys, and
   "may precede" is transitive.
   */
  lemma CompareConsistent(a: Task, b: Task, c: Task)
    ensures Compare(a, b) < 0 <==> Compare(b, a) > 0
    ensures Compare(a, b) == 0 <==> Key(a) == Key(b)
    ensures Before(a, b) || Before(b, a)
    ensures Before(a, b) && Before(b, c) ==> Before(a, c)
  {
  }

  /** Every task may precede every later one. */
  ghost predicate Sorted(s: seq<Task>) {
    forall i, j :: 0 <= i < j < |s| ==> Before(s[i], s[j])
  }

  /** The tasks of `s` whose comparator key is `k`, in order. */
  function WithKey(s: seq<Task>, k: (Priority, bool, Option<int>)): seq<Task> {
    if s == [] then []
    else (if Key(s[0]) == k then [s[0]] else []) + WithKey(s[1..], k)
  }

  /** `x` inserted before the first task it may precede. */
  function Insert(x: Task, s: seq<Task>): (r: seq<Task>)
    ensures multiset(r) == multiset(s) + multiset{x}
    ensures |r| == |s| + 1
  {
    if s == [] then [x]
    else if Before(x, s[0]) then [x] + s
    else
      assert s == [s[0]] + s[1..];
      [s[0]] + Insert(x, s[1..])
  }

  /** Inserting into a sorted sequence keeps it sorted. */
  lemma {:induction false} InsertSorted(x: Task, s: seq<Task>)
    requires Sorted(s)
    ensures Sorted(Insert(x, s))
  {
    var r := Insert(x, s);
    if s == [] {
    } else if Before(x, s[0]) {
      assert r[1..] == s;
      forall j | 1 <= j < |r| ensures Before(x, r[j]) {
        CompareConsistent(x, s[0], r[j]);
      }
    } else {
      var rest := Insert(x, s[1..]);
      assert r == [s[0]] + rest;
      InsertSorted(x, s[1..]);
      forall i, j | 0 <= i < j < |r| ensures Before(r[i], r[j]) {
        assert r[j] == rest[j - 1];
        if i > 0 {
          assert r[i] == rest[i - 1];
        } else if r[j] == x {
          CompareConsistent(x, s[0], x);
        } else {
          assert r[j] in multiset(rest);
          assert r[j] in multiset(s[1..]);
          var m :| 0 <= m < |s[1..]| && s[1..][m] == r[j];
          assert s[m + 1] == r[j];
        }
      }
    }
  }

  /**
   Inserting `x` puts it in front of the tasks that tie with it: per key, the
   order of the others is unchanged.
   */
  lemma {:induction false} InsertWithKey(x: Task, s: seq<Task>, k: (Priority, bool, Option<int>))
    ensures WithKey(Insert(x, s), k) == if Key(x) == k then [x] + WithKey(s, k) else WithKey(s, k)
  {
    if s == [] {
    } else if Before(x, s[0]) {
      assert ([x] + s)[1..] == s;
    } else {
      var rest := Insert(x, s[1..]);
      assert ([s[0]] + rest)[1..] == rest;
      InsertWithKey(x, s[1..], k);
      assert Key(x) != Key(s[0]) by {
        CompareConsistent(x, s[0], x);
      }
      assert WithKey(s, k) == (if Key(s[0]) == k then [s[0]] else []) + WithKey(s[1..], k);
      assert WithKey([s[0]] + rest, k) == (if Key(s[0]) == k then [s[0]] else []) + WithKey(rest, k);
    }
  }

  /** A stable sort by `Compare` (insertion from the back of the input). */
  function SortTasks(s: seq<Task>): (r: seq<Task>)
    ensures multiset(r) == multiset(s)
    ensures |r| == |s|
    ensures Sorted(r)
    ensures forall k :: WithKey(r, k) == WithKey(s, k)
  {
    if s == [] then []
    else
      var rest := SortTasks(s[1..]);
      assert s == [s[0]] + s[1..];
      InsertSorted(s[0], rest);
      assert forall k :: WithKey(Insert(s[0], rest), k) == WithKey(s, k) by {
        forall k ensures WithKey(Insert(s[0], rest), k) == WithKey(s, k) {
          InsertWithKey(s[0], rest, k);
        }
      }
      Insert(s[0], rest)
  }

  /**
   There is only one stable arrangement: two sorted sequences that list every
   key's tasks in the same order are equal. So whatever algorithm the engine's
   stable sort uses, its result is `SortTasks`.
   */
  lemma {:induction false} StableSortUnique(r1: seq<Task>, r2: seq<Task>)
    requires Sorted(r1) && Sorted(r2)
    requires forall k :: WithKey(r1, k) == WithKey(r2, k)
    ensures r1 == r2
    decreases |r1| + |r2|
  {
    if r1 == [] && r2 == [] {
    } else if r1 == [] {
      WithKeyHead(r2);
    } else if r2 == [] {
      WithKeyHead(r1);
    } else {
      var a, b := r1[0], r2[0];
      // a's key occurs in r2, so r2's head may precede a, and symmetrically
      WithKeyHead(r1);
      WithKeyHead(r2);
      var ja := WithKeyMember(r2, Key(a));
      var jb := WithKeyMember(r1, Key(b));
      CompareConsistent(b, r2[ja], a);
      CompareConsistent(a, r1[jb], b);
      CompareConsistent(a, b, a);
      assert Key(a) == Key(b);
      assert a == WithKey(r1, Key(a))[0] == WithKey(r2, Key(a))[0] == b;
      forall k
        ensures WithKey(r1[1..], k) == WithKey(r2[1..], k)
      {
        var w1, w2 := WithKey(r1, k), WithKey(r2, k);
        assert w1 == w2;
        assert w1 == (if Key(a) == k then [a] else []) + WithKey(r1[1..], k);
        assert w2 == (if Key(b) == k then [b] else []) + WithKey(r2[1..], k);
        if Key(a) == k {
          assert WithKey(r1[1..], k) == w1[1..];
          assert WithKey(r2[1..], k) == w2[1..];
        } else {
          assert Key(b) != k;
          assert WithKey(r1[1..], k) == w1;
          assert WithKey(r2[1..], k) == w2;
        }
      }
      StableSortUnique(r1[1..], r2[1..]);
      assert r1 == [a] + r1[1..];
      assert r2 == [b] + r2[1..];
    }
  }

  lemma WithKeyHead(s: seq<Task>)
    requires s != []
    ensures WithKey(s, Key(s[0])) == [s[0]] + WithKey(s[1..], Key(s[0]))
  {
  }

  /** A task listed under key `k` is a task of `s` with that key. */
  lemma {:induction false} WithKeyMember(s: seq<Task>, k: (Priority, bool, Option<int>)) returns (j: nat)
    requires WithKey(s, k) != []
    ensures j < |s| && s[j] == WithKey(s, k)[0] && Key(s[j]) == k
  {
    if Key(s[0]) == k {
      j := 0;
    } else {
      var j' := WithKeyMember(s[1..], k);
      j := j' + 1;
    }
  }

  /** A prefix of a sequence lists, per key, a prefix of that key's tasks. */
  lemma {:induction false} WithKeyOfPrefix(s: seq<Task>, n: nat, k: (Priority, bool, Option<int>))
    requires n <= |s|
    ensures WithKey(s[..n], k) <= WithKey(s, k)
  {
    if n > 0 {
      assert s[..n][1..] == s[1..][..n - 1];
      WithKeyOfPrefix(s[1..], n - 1, k);
    }
  }

  /** The project filter is on when a non-empty project id is selected (`selectedProject ? ... : todos`). */
  predicate ProjectSelected(selected: Option<string>) {
    selected.Some? && selected.value != ""
  }

  /** The task belongs to the selected project, or no project is selected. */
  predicate InProject(t: Task, selected: Option<string>) {
    ProjectSelected(selected) ==> t.projectId == selected
  }

  /**
   `filteredTodos`: the tasks of the selected project, or all tasks; in input
   order, each as often as it occurs.
   */
  function ProjectTasks(todos: seq<Task>, selected: Option<string>): (r: seq<Task>)
    ensures !ProjectSelected(selected) ==> r == todos
    ensures forall t :: t in r <==> t in todos && InProject(t, selected)
    ensures forall t :: multiset(r)[t] == if InProject(t, selected) then multiset(todos)[t] else 0
    ensures IsSubsequence(r, todos)
  {
    if ProjectSelected(selected) then Filter(todos, (t: Task) => t.projectId == selected)
    else
      FilterAll(todos, (t: Task) => true);
      todos
  }

  /**
   The tasks that compete for the upcoming list: incomplete, in the selected
   project; in input order, each as often as it occurs.
   */
  function Candidates(todos: seq<Task>, selected: Option<string>): (r: seq<Task>)
    ensures forall t :: t in r <==> t in todos && !t.completed && InProject(t, selected)
    ensures forall t :: multiset(r)[t] == if !t.completed && InProject(t, selected) then multiset(todos)[t] else 0
    ensures IsSubsequence(r, todos)
  {
    var project := ProjectTasks(todos, selected);
    var r := Filter(project, (t: Task) => !t.completed);
    SubsequenceTrans(r, project, todos);
    r
  }

  /** How many tasks the upcoming list shows at most. */
  const UpcomingLimit := 5

  /** A prefix of a sorted sequence is sorted. */
  lemma SortedPrefix(s: seq<Task>, n: nat)
    requires Sorted(s) && n <= |s|
    ensures Sorted(s[..n])
  {
    assert forall i :: 0 <= i < n ==> s[..n][i] == s[i];
  }

  /**
   `upcomingTodos`: the candidates, stably sorted by the comparator, first five.
   Every one is incomplete and in the selected project, and the list is in
   comparator order.
   */
  function Upcoming(todos: seq<Task>, selected: Option<string>): (r: seq<Task>)
    ensures |r| == if |Candidates(todos, selected)| < UpcomingLimit then |Candidates(todos, selected)| else UpcomingLimit
    ensures forall t :: t in r ==> t in todos && !t.completed
    ensures ProjectSelected(selected) ==> forall t :: t in r ==> t.projectId == selected
    ensures multiset(r) <= multiset(Candidates(todos, selected))
    ensures Sorted(r)
  {
    var sorted := SortTasks(Candidates(todos, selected));
    var r := Take(sorted, UpcomingLimit);
    SortedPrefix(sorted, |r|);
    assert forall t :: t in r ==> t in multiset(sorted);
    r
  }

  /**
   The upcoming list is the first five of ANY stable sort of the candidates:
   of every sequence that is in comparator order and keeps tied tasks in input order.
   */
  lemma UpcomingIsTopOfStableSort(todos: seq<Task>, selected: Option<string>, q: seq<Task>)
    requires Sorted(q)
    requires forall k :: WithKey(q, k) == WithKey(Candidates(todos, selected), k)
    ensures Upcoming(todos, selected) == Take(q, UpcomingLimit)
  {
    StableSortUnique(q, SortTasks(Candidates(todos, selected)));
  }

  /**
   Among tasks that tie on every key, the upcoming list shows the earliest ones of
   the input, in input order.
   */
  lemma UpcomingKeepsTiesInOrder(todos: seq<Task>, selected: Option<string>, k: (Priority, bool, Option<int>))
    ensures WithKey(Upcoming(todos, selected), k) <= WithKey(Candidates(todos, selected), k)
  {
    var sorted := SortTasks(Candidates(todos, selected));
    WithKeyOfPrefix(sorted, |Upcoming(todos, selected)|, k);
  }

  /**
   The ranking, pair by pair: higher priority first; on equal priority, starred
   first; then the earlier due date first, and undated tasks after dated ones.
   */
  lemma UpcomingOrder(todos: seq<Task>, selected: Option<string>)
    ensures var u := Upcoming(todos, selected);
            forall i, j :: 0 <= i < j < |u| ==>
              && Rank(u[i].priority) >= Rank(u[j].priority)
              && (u[i].priority == u[j].priority && u[j].starred ==> u[i].starred)
              && ((u[i].priority == u[j].priority && u[i].starred == u[j].starred
                   && u[i].dueDate.Some? && u[j].dueDate.Some?) ==> u[i].dueDate.value <= u[j].dueDate.value)
              && ((u[i].priority == u[j].priority && u[i].starred == u[j].starred
                   && u[i].dueDate.None?) ==> u[j].dueDate.None?)
  {
    var u := Upcoming(todos, selected);
    forall i, j | 0 <= i < j < |u| ensures Before(u[i], u[j]) {
    }
  }

  /** `completedTodos`: the number of completed tasks. */
  function CompletedCount(todos: seq<Task>): (n: nat)
    ensures n == |set i | 0 <= i < |todos| && todos[i].completed|
    ensures n <= |todos|
  {
    var p := (t: Task) => t.completed;
    assert Positions(todos, p) == set i | 0 <= i < |todos| && todos[i].completed;
    Count(todos, p)
  }

  /** The completion rate as displayed: `Math.round(completed / total * 100)`, 0 without tasks. */
  function CompletionPercent(todos: seq<Task>): (r: nat)
    ensures todos == [] ==> r == 0
    ensures todos != [] ==> 2 * |todos| * r <= 200 * CompletedCount(todos) + |todos|
                            < 2 * |todos| * r + 2 * |todos|
    ensures r <= 100
  {
    Stats.RoundedPercent(CompletedCount(todos), |todos|)
  }

  /** `highPriorityTodos.length`: the high-priority tasks not yet completed. */
  function HighPriorityCount(todos: seq<Task>): (n: nat)
    ensures n == |set i | 0 <= i < |todos| && todos[i].priority == High && !todos[i].completed|
  {
    var p := (t: Task) => t.priority == High && !t.completed;
    assert Positions(todos, p) == set i | 0 <= i < |todos| && todos[i].priority == High && !todos[i].completed;
    Count(todos, p)
  }

  /** `todaysFocus`: the first focus dated on today's key, or none. */
  function TodaysFocus(focuses: seq<Focus.DailyFocus>, nowIso: string): (r: Option<Focus.DailyFocus>)
    ensures r.None? <==> forall i :: 0 <= i < |focuses| ==> focuses[i].focusDate != Focus.DateKey(nowIso)
    ensures r.Some? ==>
              exists i :: && 0 <= i < |focuses| && focuses[i] == r.value && focuses[i].focusDate == Focus.DateKey(nowIso)
                          && forall j :: 0 <= j < i ==> focuses[j].focusDate != Focus.DateKey(nowIso)
  {
    Focus.FocusForDate(focuses, Focus.DateKey(nowIso))
  }
}
