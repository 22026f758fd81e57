/** The task list's sort menu.  Each menu entry is a comparator; the list is
    sorted with a stable sort (the array sort the page relies on keeps equal
    elements in their original order), modelled here as insertion sort.  The
    sort works on a copy: the list it is given is a value and stays as is. */
module ClientSort {
  import opened Wrappers
  import opened Dates
  import opened Tasks

  datatype SortKey = DateDesc | DateAsc | ByTitle | ByPriority | ByDueDate

  /** The value of the menu entry for each key. */
  function KeyName(k: SortKey): string {
    match k
    case DateDesc => "date-desc"
    case DateAsc => "date-asc"
    case ByTitle => "title"
    case ByPriority => "priority"
    case ByDueDate => "due-date"
  }

  /** The `switch` over the menu value: a known value names its key, any
      other value falls to the `default` branch. */
  function ParseSortKey(s: string): (k: Option<SortKey>)
    ensures k.Some? ==> KeyName(k.value) == s
    ensures k.None? ==> forall key: SortKey :: KeyName(key) != s
  {
    if s == "date-desc" then Some(DateDesc)
    else if s == "date-asc" then Some(DateAsc)
    else if s == "title" then Some(ByTitle)
    else if s == "priority" then Some(ByPriority)
    else if s == "due-date" then Some(ByDueDate)
    else None
  }

  /** Every key is recognised from its own menu value. */
  lemma ParseKeyName(k: SortKey)
    ensures ParseSortKey(KeyName(k)) == Some(k)
  {
  }

  /** `?.value || 'date-desc'`: a missing or empty menu value sorts newest
      first. */
  function SelectedSort(value: Option<string>): (s: string)
    ensures value.None? || value == Some("") ==> s == KeyName(DateDesc)
    ensures value.Some? && value.value != "" ==> s == value.value
  {
    if value.None? || value.value == "" then "date-desc" else value.value
  }

  // ------------------------------------------------------------ comparators

  /** Titles are compared character by character, a proper prefix first; this
      stands in for the locale-aware comparison of the browser. */
  function LexCmp(a: string, b: string): (c: int)
    ensures -1 <= c <= 1
    ensures c == 0 <==> a == b
  {
    if a == [] then (if b == [] then 0 else -1)
    else if b == [] then 1
    else if a[0] < b[0] then -1
    else if a[0] > b[0] then 1
    else
      assert a == [a[0]] + a[1..] && b == [b[0]] + b[1..];
      LexCmp(a[1..], b[1..])
  }

  lemma {:induction false} LexCmpAntisymmetric(a: string, b: string)
    ensures LexCmp(a, b) == -LexCmp(b, a)
  {
    if a != [] && b != [] && a[0] == b[0] {
      LexCmpAntisymmetric(a[1..], b[1..]);
    }
  }

  lemma {:induction false} LexCmpTransitive(a: string, b: string, c: string)
    requires LexCmp(a, b) <= 0 && LexCmp(b, c) <= 0
    ensures LexCmp(a, c) <= 0
  {
    if a != [] && b != [] && c != [] && a[0] == b[0] && b[0] == c[0] {
      LexCmpTransitive(a[1..], b[1..], c[1..]);
    }
  }

  /** `priorityOrder[p] || 2`: high 1, low 3, medium and everything else
      (missing, empty, unknown) 2. */
  function PriorityRank(p: Option<string>): (r: int)
    ensures 1 <= r <= 3
    ensures r == 1 <==> p == Some(PriorityHigh)
    ensures r == 3 <==> p == Some(PriorityLow)
  {
    if p == Some(PriorityHigh) then 1
    else if p == Some(PriorityLow) then 3
    else 2
  }

  /** The due-date comparator: undated after dated, two undated equal, two
      dated in chronological order. */
  function DueCmp(a: Option<Date>, b: Option<Date>): int {
    if a.None? && b.None? then 0
    else if a.None? then 1
    else if b.None? then -1
    else Compare(a.value, b.value)
  }

  /** The comparator of each menu entry; only its sign matters. */
  function Cmp(k: SortKey, a: Task, b: Task): int {
    match k
    case DateDesc => b.createdAt - a.createdAt
    case DateAsc => a.createdAt - b.createdAt
    case ByTitle => LexCmp(a.title, b.title)
    case ByPriority => PriorityRank(a.priority) - PriorityRank(b.priority)
    case ByDueDate => DueCmp(a.dueDate, b.dueDate)
  }

  /** Swapping the arguments flips the comparator's sign. */
  lemma CmpFlip(k: SortKey, a: Task, b: Task)
    ensures Cmp(k, a, b) < 0 <==> Cmp(k, b, a) > 0
    ensures Cmp(k, a, b) == 0 <==> Cmp(k, b, a) == 0
  {
    if k == ByTitle {
      LexCmpAntisymmetric(a.title, b.title);
    } else if k == ByDueDate && a.dueDate.Some? && b.dueDate.Some? {
      CompareAntisymmetric(a.dueDate.value, b.dueDate.value);
    }
  }

  /** Tasks the comparator calls equal compare alike against every task. */
  lemma CmpEquivalent(k: SortKey, a: Task, c: Task, x: Task)
    requires Cmp(k, a, c) == 0
    ensures Cmp(k, x, a) == Cmp(k, x, c)
  {
    if k == ByDueDate && a.dueDate.Some? {
      CompareAntisymmetric(a.dueDate.value, c.dueDate.value);
    }
  }

  /** Every comparator is a total preorder: transitive, and strictly so when
      one of the two steps is strict. */
  lemma CmpTransitive(k: SortKey, a: Task, b: Task, c: Task)
    requires Cmp(k, a, b) <= 0 && Cmp(k, b, c) <= 0
    ensures Cmp(k, a, c) <= 0
    ensures Cmp(k, a, b) < 0 || Cmp(k, b, c) < 0 ==> Cmp(k, a, c) < 0
  {
    if k == ByTitle {
      LexCmpTransitive(a.title, b.title, c.title);
    } else if k == ByDueDate && a.dueDate.Some? && b.dueDate.Some? && c.dueDate.Some? {
      CompareTransitive(a.dueDate.value, b.dueDate.value, c.dueDate.value);
    }
    if Cmp(k, a, c) == 0 {
      CmpEquivalent(k, a, c, b);
      CmpFlip(k, a, b);
    }
  }

  // ------------------------------------------------------------------ sort

  /** A comparator over tasks; the sort below is generic in it, so its
      proofs do not depend on how a menu entry compares. */
  type Comparator = (Task, Task) -> int

  /** The comparator of a menu entry as a function value. */
  function CmpOf(k: SortKey): Comparator {
    (a: Task, b: Task) => Cmp(k, a, b)
  }

  /** A total preorder: swapping flips the sign, equal tasks compare alike
      against every task, and the order is transitive, strictly so when one
      step is strict. */
  ghost predicate Preorder(cmp: Comparator) {
    && (forall a, b :: cmp(a, b) < 0 <==> cmp(b, a) > 0)
    && (forall a, b :: cmp(a, b) == 0 ==> cmp(b, a) == 0)
    && (forall a, c, x {:trigger Triple(a, c, x)} :: Triple(a, c, x) && cmp(a, c) == 0 ==> cmp(x, a) == cmp(x, c))
    && (forall a, b, c {:trigger Triple(a, b, c)} :: Triple(a, b, c) && cmp(a, b) <= 0 && cmp(b, c) <= 0 ==>
          cmp(a, c) <= 0 && (cmp(a, b) < 0 || cmp(b, c) < 0 ==> cmp(a, c) < 0))
  }

  /** Names three tasks, so that a proof can ask for the transitivity and
      equivalence facts of a preorder about exactly those three. */
  predicate Triple(a: Task, b: Task, c: Task) {
    true
  }

  /** Every menu entry's comparator is a total preorder. */
  lemma CmpPreorder(k: SortKey)
    ensures Preorder(CmpOf(k))
  {
    CmpOfFlips(k);
    CmpOfEquivalent(k);
    CmpOfTransitive(k);
  }

  lemma CmpOfFlips(k: SortKey)
    ensures forall a, b :: CmpOf(k)(a, b) < 0 <==> CmpOf(k)(b, a) > 0
    ensures forall a, b :: CmpOf(k)(a, b) == 0 ==> CmpOf(k)(b, a) == 0
  {
    var cmp := CmpOf(k);
    forall a, b ensures (cmp(a, b) < 0 <==> cmp(b, a) > 0) && (cmp(a, b) == 0 ==> cmp(b, a) == 0) {
      CmpFlip(k, a, b);
    }
  }

  lemma CmpOfEquivalent(k: SortKey)
    ensures forall a, c, x {:trigger Triple(a, c, x)} :: Triple(a, c, x) && CmpOf(k)(a, c) == 0 ==> CmpOf(k)(x, a) == CmpOf(k)(x, c)
  {
    var cmp := CmpOf(k);
    forall a, c, x | Triple(a, c, x) && cmp(a, c) == 0 ensures cmp(x, a) == cmp(x, c) {
      CmpEquivalent(k, a, c, x);
    }
  }

  lemma CmpOfTransitive(k: SortKey)
    ensures forall a, b, c {:trigger Triple(a, b, c)} :: Triple(a, b, c) && CmpOf(k)(a, b) <= 0 && CmpOf(k)(b, c) <= 0 ==>
              CmpOf(k)(a, c) <= 0 && (CmpOf(k)(a, b) < 0 || CmpOf(k)(b, c) < 0 ==> CmpOf(k)(a, c) < 0)
  {
    var cmp := CmpOf(k);
    forall a, b, c | Triple(a, b, c) && cmp(a, b) <= 0 && cmp(b, c) <= 0
      ensures cmp(a, c) <= 0 && (cmp(a, b) < 0 || cmp(b, c) < 0 ==> cmp(a, c) < 0)
    {
      CmpTransitive(k, a, b, c);
    }
  }

  predicate Sorted(cmp: Comparator, s: seq<Task>) {
    forall i, j | 0 <= i < j < |s| :: cmp(s[i], s[j]) <= 0
  }

  /** The tasks of `s` the comparator calls equal to `c`, in order. */
  function Class(cmp: Comparator, s: seq<Task>, c: Task): seq<Task> {
    if s == [] then []
    else (if cmp(s[0], c) == 0 then [s[0]] else []) + Class(cmp, s[1..], c)
  }

  /** Places `x` before the first task it does not sort after, so ahead of
      every task equal to it. */
  function Insert(cmp: Comparator, x: Task, s: seq<Task>): (r: seq<Task>)
    ensures |r| == |s| + 1
  {
    if s == [] || cmp(x, s[0]) <= 0 then [x] + s
    else [s[0]] + Insert(cmp, x, s[1..])
  }

  /** Sorts the tail, then inserts the first task; since it goes ahead of
      its equals, which all came after it, the sort is stable. */
  function SortBy(cmp: Comparator, s: seq<Task>): (r: seq<Task>)
    ensures |r| == |s|
  {
    if s == [] then [] else Insert(cmp, s[0], SortBy(cmp, s[1..]))
  }

  /** Inserting adds exactly the one task. */
  lemma {:induction false} InsertPermutes(cmp: Comparator, x: Task, s: seq<Task>)
    ensures multiset(Insert(cmp, x, s)) == multiset(s) + multiset{x}
  {
    if s != [] && cmp(x, s[0]) > 0 {
      InsertPermutes(cmp, x, s[1..]);
      assert s == [s[0]] + s[1..];
    }
  }

  /** Sorting neither adds nor loses a task. */
  lemma {:induction false} SortByPermutes(cmp: Comparator, s: seq<Task>)
    ensures multiset(SortBy(cmp, s)) == multiset(s)
  {
    if s != [] {
      SortByPermutes(cmp, s[1..]);
      InsertPermutes(cmp, s[0], SortBy(cmp, s[1..]));
      assert s == [s[0]] + s[1..];
    }
  }

  lemma SortedTail(cmp: Comparator, s: seq<Task>)
    requires s != [] && Sorted(cmp, s)
    ensures Sorted(cmp, s[1..])
  {
    forall i, j | 0 <= i < j < |s[1..]| ensures cmp(s[1..][i], s[1..][j]) <= 0 {
      assert s[1..][i] == s[i + 1] && s[1..][j] == s[j + 1];
    }
  }

  lemma {:induction false} InsertSorted(cmp: Comparator, x: Task, s: seq<Task>)
    requires Preorder(cmp)
    requires Sorted(cmp, s)
    ensures Sorted(cmp, Insert(cmp, x, s))
  {
    var r := Insert(cmp, x, s);
    if s == [] {
    } else if cmp(x, s[0]) <= 0 {
      forall j | 0 <= j < |s| ensures cmp(x, s[j]) <= 0 {
        assert Triple(x, s[0], s[j]);
      }
    } else {
      var t := Insert(cmp, x, s[1..]);
      SortedTail(cmp, s);
      InsertSorted(cmp, x, s[1..]);
      InsertPermutes(cmp, x, s[1..]);
      forall j | 0 <= j < |t| ensures cmp(s[0], t[j]) <= 0 {
        assert t[j] in multiset(t);
        if t[j] != x {
          assert t[j] in s[1..];
          var m :| 0 <= m < |s[1..]| && s[1..][m] == t[j];
          assert s[m + 1] == t[j];
        }
      }
      assert r == [s[0]] + t;
    }
  }

  lemma {:induction false} SortBySorted(cmp: Comparator, s: seq<Task>)
    requires Preorder(cmp)
    ensures Sorted(cmp, SortBy(cmp, s))
  {
    if s != [] {
      SortBySorted(cmp, s[1..]);
      InsertSorted(cmp, s[0], SortBy(cmp, s[1..]));
    }
  }

  /** The class of a list with a task in front. */
  lemma ClassCons(cmp: Comparator, y: Task, t: seq<Task>, c: Task)
    ensures Class(cmp, [y] + t, c) == (if cmp(y, c) == 0 then [y] else []) + Class(cmp, t, c)
  {
    assert ([y] + t)[0] == y && ([y] + t)[1..] == t;
  }

  /** Inserting `x` puts it at the front of its own class and leaves the
      others: the tasks it passes sort strictly before it, so none of them
      is equal to it. */
  lemma {:induction false} InsertClass(cmp: Comparator, x: Task, s: seq<Task>, c: Task)
    requires Preorder(cmp)
    ensures Class(cmp, Insert(cmp, x, s), c)
         == if cmp(x, c) == 0 then [x] + Class(cmp, s, c) else Class(cmp, s, c)
  {
    if s == [] || cmp(x, s[0]) <= 0 {
      ClassCons(cmp, x, s, c);
    } else {
      var t := Insert(cmp, x, s[1..]);
      InsertClass(cmp, x, s[1..], c);
      ClassCons(cmp, s[0], t, c);
      assert s == [s[0]] + s[1..];
      ClassCons(cmp, s[0], s[1..], c);
      if cmp(x, c) == 0 {
        assert Triple(x, c, s[0]);
        assert cmp(s[0], c) != 0;
      }
    }
  }

  /** The sort is stable: every class keeps its input order. */
  lemma {:induction false} SortByStable(cmp: Comparator, s: seq<Task>, c: Task)
    requires Preorder(cmp)
    ensures Class(cmp, SortBy(cmp, s), c) == Class(cmp, s, c)
  {
    if s != [] {
      SortByStable(cmp, s[1..], c);
      InsertClass(cmp, s[0], SortBy(cmp, s[1..]), c);
    }
  }

  /** `sortTasks`: a permutation of the input; for a known menu value it is
      ordered by that entry's comparator and stable, for any other value it
      is the input order. */
  function SortTasks(tasks: seq<Task>, sortBy: string): (r: seq<Task>)
    ensures multiset(r) == multiset(tasks)
    ensures ParseSortKey(sortBy).None? ==> r == tasks
    ensures ParseSortKey(sortBy).Some? ==>
              var k := ParseSortKey(sortBy).value;
              Sorted(CmpOf(k), r) && forall c :: Class(CmpOf(k), r, c) == Class(CmpOf(k), tasks, c)
  {
    match ParseSortKey(sortBy)
    case None => tasks
    case Some(k) =>
      var cmp := CmpOf(k);
      CmpPreorder(k);
      SortByPermutes(cmp, tasks);
      SortBySorted(cmp, tasks);
      assert forall c :: Class(cmp, SortBy(cmp, tasks), c) == Class(cmp, tasks, c) by {
        forall c ensures Class(cmp, SortBy(cmp, tasks), c) == Class(cmp, tasks, c) {
          SortByStable(cmp, tasks, c);
        }
      }
      SortBy(cmp, tasks)
  }

  // ------------------------------------------------ per-entry consequences

  /** Newest first: creation times never increase along the list. */
  lemma NewestFirstSort(tasks: seq<Task>)
    ensures var r := SortTasks(tasks, "date-desc");
            forall i, j | 0 <= i < j < |r| :: r[i].createdAt >= r[j].createdAt
  {
    assert ParseSortKey("date-desc") == Some(DateDesc);
  }

  /** The tasks of one priority rank, in order. */
  function WithRank(s: seq<Task>, rank: int): (r: seq<Task>) {
    if s == [] then []
    else (if PriorityRank(s[0].priority) == rank then [s[0]] else []) + WithRank(s[1..], rank)
  }

  lemma {:induction false} PriorityClass(s: seq<Task>, c: Task)
    ensures Class(CmpOf(ByPriority), s, c) == WithRank(s, PriorityRank(c.priority))
  {
    if s != [] {
      PriorityClass(s[1..], c);
    }
  }

  /** Priority sort: high before medium before low, a missing or unknown
      priority ranked with medium, and the tasks of one rank in input order. */
  lemma PrioritySort(tasks: seq<Task>)
    ensures var r := SortTasks(tasks, "priority");
            && (forall i, j | 0 <= i < j < |r| :: PriorityRank(r[i].priority) <= PriorityRank(r[j].priority))
            && (forall c: Task :: WithRank(r, PriorityRank(c.priority)) == WithRank(tasks, PriorityRank(c.priority)))
  {
    var r := SortTasks(tasks, "priority");
    assert ParseSortKey("priority") == Some(ByPriority);
    forall c: Task ensures WithRank(r, PriorityRank(c.priority)) == WithRank(tasks, PriorityRank(c.priority)) {
      PriorityClass(r, c);
      PriorityClass(tasks, c);
    }
  }

  /** The undated tasks of `s`, in order. */
  function Undated(s: seq<Task>): (r: seq<Task>) {
    if s == [] then []
    else (if s[0].dueDate.None? then [s[0]] else []) + Undated(s[1..])
  }

  lemma {:induction false} UndatedClass(s: seq<Task>, c: Task)
    requires c.dueDate.None?
    ensures Class(CmpOf(ByDueDate), s, c) == Undated(s)
  {
    if s != [] {
      UndatedClass(s[1..], c);
    }
  }

  /** Due-date sort: every dated task before every undated one, dated tasks
      in chronological order, undated tasks in input order. */
  lemma DueDateSort(tasks: seq<Task>)
    ensures var r := SortTasks(tasks, "due-date");
            && (forall i, j | 0 <= i < j < |r| && r[i].dueDate.None? :: r[j].dueDate.None?)
            && (forall i, j | 0 <= i < j < |r| && r[i].dueDate.Some? && r[j].dueDate.Some? ::
                  Compare(r[i].dueDate.value, r[j].dueDate.value) <= 0)
            && Undated(r) == Undated(tasks)
  {
    var r := SortTasks(tasks, "due-date");
    assert ParseSortKey("due-date") == Some(ByDueDate);
    var c := Task("", "", "", "", "", None, None, 0, 0);
    UndatedClass(r, c);
    UndatedClass(tasks, c);
  }
}
