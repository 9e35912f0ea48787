/**
  The visible list of src/App.tsx: the tasks kept by the filter, sorted on a
  copy by a two-level comparator (incomplete first, then the chosen key), and
  the choice between the two empty states and the card grid.

  `localeCompare` on titles is not modelled: the title comparison is a
  parameter `tc`, asked to behave like a consistent comparator only where a
  lemma sorts by title. JavaScript's sort is replaced by a stable insertion
  sort, which is what the comparator needs once two undated tasks compare
  equal (see CompareAsWritten for the comparator as the source has it).
 */
module View {
  import opened Types

  datatype Filter = All | Done | Undone

  datatype SortKey = ByPriority | ByDeadline | ByAlphabet

  // ---------------------------------------------------------------------
  // Filter
  // ---------------------------------------------------------------------

  /** The filter predicate: `all` keeps everything, `done` completed tasks, `undone` the rest. */
  predicate Keep(f: Filter, t: Task)
    ensures f == All ==> Keep(f, t)
    ensures f == Done ==> (Keep(f, t) <==> t.completed)
    ensures f == Undone ==> (Keep(f, t) <==> !t.completed)
  {
    match f
    case All => true
    case Done => t.completed
    case Undone => !t.completed
  }

  /** `tasks.filter(...)`: the tasks the filter keeps, in list order. */
  function FilterTasks(tasks: seq<Task>, f: Filter): (r: seq<Task>)
    ensures |r| <= |tasks|
    ensures forall k :: 0 <= k < |r| ==> Keep(f, r[k])
  {
    if |tasks| == 0 then []
    else (if Keep(f, tasks[0]) then [tasks[0]] else []) + FilterTasks(tasks[1..], f)
  }

  /** Each task the filter keeps is there as often as in the input; no other task is. */
  lemma {:induction false} FilterCount(tasks: seq<Task>, f: Filter, x: Task)
    ensures multiset(FilterTasks(tasks, f))[x] == if Keep(f, x) then multiset(tasks)[x] else 0
  {
    if |tasks| > 0 {
      FilterCount(tasks[1..], f, x);
      assert tasks == [tasks[0]] + tasks[1..];
    }
  }

  /** Filtering works element by element, so the kept tasks stay in input order. */
  lemma {:induction false} FilterAppend(a: seq<Task>, b: seq<Task>, f: Filter)
    ensures FilterTasks(a + b, f) == FilterTasks(a, f) + FilterTasks(b, f)
  {
    if |a| == 0 {
      assert a + b == b;
    } else {
      assert (a + b)[1..] == a[1..] + b;
      FilterAppend(a[1..], b, f);
    }
  }

  /** `all` keeps the list as it is. */
  lemma {:induction false} FilterAllIsIdentity(tasks: seq<Task>)
    ensures FilterTasks(tasks, All) == tasks
  {
    if |tasks| > 0 {
      FilterAllIsIdentity(tasks[1..]);
      assert tasks == [tasks[0]] + tasks[1..];
    }
  }

  // ---------------------------------------------------------------------
  // Comparator
  // ---------------------------------------------------------------------

  /** The priority order table: high 0, medium 1, low 2. */
  function Rank(p: Priority): (r: int)
    ensures 0 <= r <= 2
    ensures r == 0 <==> p == High
    ensures r == 2 <==> p == Low
  {
    match p
    case High => 0
    case Medium => 1
    case Low => 2
  }

  /**
    The comparator exactly as written: completion first, then the key; for
    `deadline`, `a` without a date sorts after `b` (checked before `b`'s date
    is looked at), so two undated tasks each claim to go after the other.
   */
  function CompareAsWritten(key: SortKey, tc: (string, string) -> int, a: Task, b: Task): (r: int)
    ensures a.completed != b.completed ==> r != 0 && (r < 0 <==> !a.completed)
    ensures a.completed == b.completed && key == ByPriority ==>
      (r < 0 <==> Rank(a.priority) < Rank(b.priority)) && (r == 0 <==> a.priority == b.priority)
    ensures a.completed == b.completed && key == ByDeadline && a.deadline.None? ==> r > 0
    ensures a.completed == b.completed && key == ByDeadline && a.deadline.Some? ==>
      (r < 0 <==> b.deadline.None? || a.deadline.value < b.deadline.value)
    ensures a.completed == b.completed && key == ByAlphabet ==> r == tc(a.title, b.title)
  {
    if a.completed != b.completed then (if a.completed then 1 else -1)
    else
      match key
      case ByPriority => Rank(a.priority) - Rank(b.priority)
      case ByDeadline =>
        if a.deadline.None? then 1
        else if b.deadline.None? then -1
        else a.deadline.value - b.deadline.value
      case ByAlphabet => tc(a.title, b.title)
  }

  /** The comparator the view uses: as written, except that two undated tasks compare equal. */
  function Compare(key: SortKey, tc: (string, string) -> int, a: Task, b: Task): (r: int)
    ensures r != CompareAsWritten(key, tc, a, b) <==>
      key == ByDeadline && a.completed == b.completed && a.deadline.None? && b.deadline.None?
    ensures key == ByDeadline && a.completed == b.completed && a.deadline.None? ==>
      r >= 0 && (r == 0 <==> b.deadline.None?)
  {
    if key == ByDeadline && a.completed == b.completed && a.deadline.None? && b.deadline.None? then 0
    else CompareAsWritten(key, tc, a, b)
  }

  /** `a` may stand before `b`. */
  predicate Le(key: SortKey, tc: (string, string) -> int, a: Task, b: Task)
  {
    Compare(key, tc, a, b) <= 0
  }

  /** What `Array.prototype.sort` asks of a comparator: swapping the arguments flips the sign. */
  predicate Antisymmetric(x: int, y: int)
  {
    (x < 0 <==> y > 0) && (x == 0 <==> y == 0)
  }

  /** A consistent comparator on titles: antisymmetric, and "not after" is transitive. */
  ghost predicate ConsistentTitleOrder(tc: (string, string) -> int)
  {
    (forall s, t :: Antisymmetric(tc(s, t), tc(t, s))) &&
    (forall s, t, u :: tc(s, t) <= 0 && tc(t, u) <= 0 ==> tc(s, u) <= 0)
  }

  /** The title comparison matters only when sorting by title. */
  ghost predicate Admissible(key: SortKey, tc: (string, string) -> int)
  {
    key == ByAlphabet ==> ConsistentTitleOrder(tc)
  }

  /** The comparator as written breaks antisymmetry on any two undated tasks of one completion group. */
  lemma AsWrittenDeadlineInconsistent(tc: (string, string) -> int, a: Task, b: Task)
    requires a.completed == b.completed && a.deadline.None? && b.deadline.None?
    ensures CompareAsWritten(ByDeadline, tc, a, b) == 1 && CompareAsWritten(ByDeadline, tc, b, a) == 1
    ensures !Antisymmetric(CompareAsWritten(ByDeadline, tc, a, b), CompareAsWritten(ByDeadline, tc, b, a))
  {
  }

  /** The comparator used is consistent for every key. */
  lemma CompareAntisymmetric(key: SortKey, tc: (string, string) -> int, a: Task, b: Task)
    requires Admissible(key, tc)
    ensures Antisymmetric(Compare(key, tc, a, b), Compare(key, tc, b, a))
  {
  }

  lemma LeTotal(key: SortKey, tc: (string, string) -> int, a: Task, b: Task)
    requires Admissible(key, tc)
    ensures Le(key, tc, a, b) || Le(key, tc, b, a)
  {
    CompareAntisymmetric(key, tc, a, b);
  }

  lemma LeTransitive(key: SortKey, tc: (string, string) -> int, a: Task, b: Task, c: Task)
    requires Admissible(key, tc)
    requires Le(key, tc, a, b) && Le(key, tc, b, c)
    ensures Le(key, tc, a, c)
  {
  }

  // ---------------------------------------------------------------------
  // Stable sort
  // ---------------------------------------------------------------------

  predicate Sorted(s: seq<Task>, key: SortKey, tc: (string, string) -> int)
  {
    forall i, j :: 0 <= i < j < |s| ==> Le(key, tc, s[i], s[j])
  }

  /** Puts `x` before the first element it may precede, so after every element it must follow. */
  function Insert(x: Task, s: seq<Task>, key: SortKey, tc: (string, string) -> int): (r: seq<Task>)
    ensures multiset(r) == multiset(s) + multiset{x}
  {
    if |s| == 0 || Le(key, tc, x, s[0]) then [x] + s
    else
      assert s == [s[0]] + s[1..];
      [s[0]] + Insert(x, s[1..], key, tc)
  }

  /** Insertion sort on a copy: a permutation of its input. */
  function SortTasks(s: seq<Task>, key: SortKey, tc: (string, string) -> int): (r: seq<Task>)
    ensures multiset(r) == multiset(s)
  {
    if |s| == 0 then []
    else
      assert s == [s[0]] + s[1..];
      Insert(s[0], SortTasks(s[1..], key, tc), key, tc)
  }

  /** Every element of `Insert(x, s)` is `x` or an element of `s`. */
  lemma InsertFrom(x: Task, s: seq<Task>, key: SortKey, tc: (string, string) -> int, k: int)
    requires 0 <= k < |Insert(x, s, key, tc)|
    ensures Insert(x, s, key, tc)[k] == x || Insert(x, s, key, tc)[k] in s
  {
    var y := Insert(x, s, key, tc)[k];
    assert y in multiset(Insert(x, s, key, tc));
  }

  lemma SortedTail(s: seq<Task>, key: SortKey, tc: (string, string) -> int)
    requires |s| > 0 && Sorted(s, key, tc)
    ensures Sorted(s[1..], key, tc)
  {
    var t := s[1..];
    forall i, j | 0 <= i < j < |t| ensures Le(key, tc, t[i], t[j]) {
      assert t[i] == s[i + 1] && t[j] == s[j + 1];
    }
  }

  lemma SortedCons(y: Task, t: seq<Task>, key: SortKey, tc: (string, string) -> int)
    requires Sorted(t, key, tc)
    requires forall j :: 0 <= j < |t| ==> Le(key, tc, y, t[j])
    ensures Sorted([y] + t, key, tc)
  {
    var r := [y] + t;
    forall i, j | 0 <= i < j < |r| ensures Le(key, tc, r[i], r[j]) {
      if i == 0 {
        assert r[j] == t[j - 1];
      } else {
        assert r[i] == t[i - 1] && r[j] == t[j - 1];
      }
    }
  }

  lemma {:induction false} InsertSorted(x: Task, s: seq<Task>, key: SortKey, tc: (string, string) -> int)
    requires Admissible(key, tc) && Sorted(s, key, tc)
    ensures Sorted(Insert(x, s, key, tc), key, tc)
  {
    if |s| == 0 {
    } else if Le(key, tc, x, s[0]) {
      forall j | 0 <= j < |s| ensures Le(key, tc, x, s[j]) {
        if j > 0 {
          LeTransitive(key, tc, x, s[0], s[j]);
        }
      }
      SortedCons(x, s, key, tc);
    } else {
      LeTotal(key, tc, x, s[0]);
      var s0, rest := s[0], s[1..];
      var tail := Insert(x, rest, key, tc);
      SortedTail(s, key, tc);
      InsertSorted(x, rest, key, tc);
      forall j | 0 <= j < |tail| ensures Le(key, tc, s0, tail[j]) {
        InsertFrom(x, rest, key, tc, j);
        if tail[j] != x {
          var m :| 0 <= m < |rest| && rest[m] == tail[j];
          assert s[m + 1] == tail[j];
        }
      }
      SortedCons(s0, tail, key, tc);
    }
  }

  lemma {:induction false} SortSorted(s: seq<Task>, key: SortKey, tc: (string, string) -> int)
    requires Admissible(key, tc)
    ensures Sorted(SortTasks(s, key, tc), key, tc)
  {
    if |s| > 0 {
      SortSorted(s[1..], key, tc);
      InsertSorted(s[0], SortTasks(s[1..], key, tc), key, tc);
    }
  }

  /** The elements that compare equal to `x`, in list order. */
  function EqualTo(s: seq<Task>, x: Task, key: SortKey, tc: (string, string) -> int): seq<Task>
  {
    if |s| == 0 then []
    else
      (if Equivalent(key, tc, s[0], x) then [s[0]] else []) +
      EqualTo(s[1..], x, key, tc)
  }

  /** `a` and `b` compare equal. */
  predicate Equivalent(key: SortKey, tc: (string, string) -> int, a: Task, b: Task)
  {
    Le(key, tc, a, b) && Le(key, tc, b, a)
  }

  /** Unfolds EqualTo once. */
  lemma EqualToCons(y: Task, s: seq<Task>, x: Task, key: SortKey, tc: (string, string) -> int)
    ensures EqualTo([y] + s, x, key, tc) == (if Equivalent(key, tc, y, x) then [y] else []) + EqualTo(s, x, key, tc)
  {
    assert ([y] + s)[1..] == s;
  }

  lemma {:induction false} InsertEqualTo(h: Task, s: seq<Task>, x: Task, key: SortKey, tc: (string, string) -> int)
    requires Admissible(key, tc)
    ensures EqualTo(Insert(h, s, key, tc), x, key, tc) ==
            (if Equivalent(key, tc, h, x) then [h] else []) + EqualTo(s, x, key, tc)
  {
    if |s| == 0 || Le(key, tc, h, s[0]) {
      EqualToCons(h, s, x, key, tc);
    } else {
      var s0, tail := s[0], s[1..];
      assert s == [s0] + tail;
      var rest := Insert(h, tail, key, tc);
      InsertEqualTo(h, tail, x, key, tc);
      EqualToCons(s0, rest, x, key, tc);
      EqualToCons(s0, tail, x, key, tc);
      if Equivalent(key, tc, h, x) && Equivalent(key, tc, s0, x) {
        LeTransitive(key, tc, h, x, s0);
        assert false;
      }
    }
  }

  /** Stability: the elements equal to any `x` come out in the order they went in. */
  lemma {:induction false} SortStable(s: seq<Task>, x: Task, key: SortKey, tc: (string, string) -> int)
    requires Admissible(key, tc)
    ensures EqualTo(SortTasks(s, key, tc), x, key, tc) == EqualTo(s, x, key, tc)
  {
    if |s| > 0 {
      SortStable(s[1..], x, key, tc);
      InsertEqualTo(s[0], SortTasks(s[1..], key, tc), x, key, tc);
    }
  }

  // ---------------------------------------------------------------------
  // Projection
  // ---------------------------------------------------------------------

  /** `visible`: the filtered tasks sorted on a copy; the store's list is a value and stays as it was. */
  function Project(tasks: seq<Task>, f: Filter, key: SortKey, tc: (string, string) -> int): (r: seq<Task>)
    ensures |r| <= |tasks|
    ensures forall k :: 0 <= k < |r| ==> Keep(f, r[k])
  {
    var kept := FilterTasks(tasks, f);
    var r := SortTasks(kept, key, tc);
    assert forall k :: 0 <= k < |r| ==> r[k] in multiset(kept);
    assert |r| == |multiset(kept)|;
    r
  }

  /** The visible list holds exactly the tasks the filter keeps, each as often as in the store. */
  lemma ProjectCount(tasks: seq<Task>, f: Filter, key: SortKey, tc: (string, string) -> int, x: Task)
    ensures multiset(Project(tasks, f, key, tc))[x] == if Keep(f, x) then multiset(tasks)[x] else 0
  {
    FilterCount(tasks, f, x);
  }

  /** Every incomplete task comes before every completed one, whatever the key. */
  lemma IncompleteFirst(tasks: seq<Task>, f: Filter, key: SortKey, tc: (string, string) -> int)
    requires Admissible(key, tc)
    ensures var r := Project(tasks, f, key, tc);
      forall i, j :: 0 <= i < j < |r| && r[i].completed ==> r[j].completed
  {
    SortSorted(FilterTasks(tasks, f), key, tc);
  }

  /** Sorting by priority: within a completion group, ranks never decrease. */
  lemma PriorityWithinGroups(tasks: seq<Task>, f: Filter, tc: (string, string) -> int)
    ensures var r := Project(tasks, f, ByPriority, tc);
      forall i, j :: 0 <= i < j < |r| && r[i].completed == r[j].completed ==>
        Rank(r[i].priority) <= Rank(r[j].priority)
  {
    SortSorted(FilterTasks(tasks, f), ByPriority, tc);
  }

  /** Sorting by deadline: within a group, dated tasks come first, in ascending date order. */
  lemma DeadlineWithinGroups(tasks: seq<Task>, f: Filter, tc: (string, string) -> int)
    ensures var r := Project(tasks, f, ByDeadline, tc);
      forall i, j :: 0 <= i < j < |r| && r[i].completed == r[j].completed && r[j].deadline.Some? ==>
        r[i].deadline.Some? && r[i].deadline.value <= r[j].deadline.value
  {
    SortSorted(FilterTasks(tasks, f), ByDeadline, tc);
  }

  /** Sorting by title: within a group, no title comes after the next one. */
  lemma AlphabetWithinGroups(tasks: seq<Task>, f: Filter, tc: (string, string) -> int)
    requires ConsistentTitleOrder(tc)
    ensures var r := Project(tasks, f, ByAlphabet, tc);
      forall i, j :: 0 <= i < j < |r| && r[i].completed == r[j].completed ==>
        tc(r[i].title, r[j].title) <= 0
  {
    SortSorted(FilterTasks(tasks, f), ByAlphabet, tc);
  }

  /** Tasks that compare equal keep their store order in the visible list. */
  lemma ProjectStable(tasks: seq<Task>, f: Filter, key: SortKey, tc: (string, string) -> int, x: Task)
    requires Admissible(key, tc)
    ensures EqualTo(Project(tasks, f, key, tc), x, key, tc) == EqualTo(FilterTasks(tasks, f), x, key, tc)
  {
    SortStable(FilterTasks(tasks, f), x, key, tc);
  }

  /** The task record the worked example uses: only id, priority and completion matter. */
  function Sample(id: string, p: Priority, done: bool): Task
  {
    Task(id, "", "", None, p, done, [], [])
  }

  /** Open high 1, done low 2, open medium 3, shown by priority: 1, 3, 2. */
  lemma WorkedExample(tc: (string, string) -> int)
    ensures Project([Sample("1", High, false), Sample("2", Low, true), Sample("3", Medium, false)], All, ByPriority, tc)
         == [Sample("1", High, false), Sample("3", Medium, false), Sample("2", Low, true)]
  {
    var t1, t2, t3 := Sample("1", High, false), Sample("2", Low, true), Sample("3", Medium, false);
    FilterAllIsIdentity([t1, t2, t3]);
    assert [t1, t2, t3][1..] == [t2, t3];
    assert [t2, t3][1..] == [t3];
    assert Insert(t2, [t3], ByPriority, tc) == [t3, t2];
    assert Insert(t1, [t3, t2], ByPriority, tc) == [t1, t3, t2];
  }

  // ---------------------------------------------------------------------
  // Main content
  // ---------------------------------------------------------------------

  datatype Content = NoTasksYet | NoMatchingTasks | Grid(cards: seq<Task>)

  /** The store is empty, else nothing is visible, else the cards of the visible list. */
  function MainContent(tasks: seq<Task>, f: Filter, key: SortKey, tc: (string, string) -> int): (c: Content)
    ensures c.NoTasksYet? <==> |tasks| == 0
    ensures c.NoMatchingTasks? <==> |tasks| > 0 && forall k :: 0 <= k < |tasks| ==> !Keep(f, tasks[k])
    ensures c.Grid? ==> |c.cards| > 0 && c.cards == Project(tasks, f, key, tc)
  {
    if |tasks| == 0 then NoTasksYet
    else
      var visible := Project(tasks, f, key, tc);
      ProjectEmptyIff(tasks, f, key, tc);
      if |visible| == 0 then NoMatchingTasks else Grid(visible)
  }

  /** Nothing is visible exactly when the filter keeps no task. */
  lemma ProjectEmptyIff(tasks: seq<Task>, f: Filter, key: SortKey, tc: (string, string) -> int)
    ensures |Project(tasks, f, key, tc)| == 0 <==> forall k :: 0 <= k < |tasks| ==> !Keep(f, tasks[k])
  {
    var r := Project(tasks, f, key, tc);
    if |r| > 0 {
      ProjectCount(tasks, f, key, tc, r[0]);
      assert r[0] in multiset(r);
      assert r[0] in tasks;
    } else {
      forall k | 0 <= k < |tasks| ensures !Keep(f, tasks[k]) {
        ProjectCount(tasks, f, key, tc, tasks[k]);
        assert tasks[k] in multiset(tasks);
      }
    }
  }
}
