/** The calendar view: which month is displayed, how the month's tasks are
    grouped by day, and what each day cell shows.  Due dates are read as
    calendar dates (the local year, month and day of the stored instant);
    the weekday offset of the first cell needs date arithmetic and is not
    modelled. */
module ClientCalendar {
  import opened Wrappers
  import opened Dates
  import opened Tasks

  /** The displayed month, counted from 0, and year. */
  datatype MonthView = MonthView(month: int, year: int)

  predicate ValidView(v: MonthView) {
    0 <= v.month < 12
  }

  /** Months counted consecutively across years. */
  function MonthIndex(v: MonthView): int {
    v.year * 12 + v.month
  }

  /** `prevMonth`: January steps back to December of the year before. */
  function PrevMonth(v: MonthView): (p: MonthView)
    ensures MonthIndex(p) == MonthIndex(v) - 1
    ensures ValidView(v) ==> ValidView(p)
    ensures v.month == 0 ==> p == MonthView(11, v.year - 1)
  {
    if v.month == 0 then MonthView(11, v.year - 1) else MonthView(v.month - 1, v.year)
  }

  /** `nextMonth`: December steps on to January of the year after. */
  function NextMonth(v: MonthView): (n: MonthView)
    ensures MonthIndex(n) == MonthIndex(v) + 1
    ensures ValidView(v) ==> ValidView(n)
    ensures v.month == 11 ==> n == MonthView(0, v.year + 1)
  {
    if v.month == 11 then MonthView(0, v.year + 1) else MonthView(v.month + 1, v.year)
  }

  /** On valid views the two steps undo each other. */
  lemma PrevNextInverse(v: MonthView)
    requires ValidView(v)
    ensures NextMonth(PrevMonth(v)) == v
    ensures PrevMonth(NextMonth(v)) == v
  {
  }

  /** A valid view is determined by its month index. */
  lemma MonthIndexInjective(v: MonthView, w: MonthView)
    requires ValidView(v) && ValidView(w)
    requires MonthIndex(v) == MonthIndex(w)
    ensures v == w
  {
  }

  /** `goToToday`: the month and year of the current date, given as input. */
  function GoToToday(today: Date): (v: MonthView)
    ensures IsValid(today) ==> ValidView(v)
    ensures v.month == today.month && v.year == today.year
  {
    MonthView(today.month, today.year)
  }

  // -------------------------------------------------------------- grouping

  /** The task is due in the displayed month and year. */
  predicate InMonth(t: Task, v: MonthView) {
    t.dueDate.Some? && t.dueDate.value.month == v.month && t.dueDate.value.year == v.year
  }

  /** The task is due on day `d` of the displayed month. */
  predicate DueOn(t: Task, v: MonthView, d: int) {
    t.dueDate == Some(Date(v.year, v.month, d))
  }

  /** The month's tasks, in list order. */
  function MonthTasks(tasks: seq<Task>, v: MonthView): (r: seq<Task>)
    ensures forall t | t in r :: InMonth(t, v)
    ensures forall t | t in tasks && InMonth(t, v) :: t in r
    ensures |r| <= |tasks|
  {
    if tasks == [] then []
    else (if InMonth(tasks[0], v) then [tasks[0]] else []) + MonthTasks(tasks[1..], v)
  }

  /** The reference for a day's bucket: the tasks due that day, in list
      order. */
  function DayBucket(tasks: seq<Task>, v: MonthView, d: int): seq<Task> {
    if tasks == [] then []
    else (if DueOn(tasks[0], v, d) then [tasks[0]] else []) + DayBucket(tasks[1..], v, d)
  }

  lemma {:induction false} DayBucketAppend(s: seq<Task>, t: Task, v: MonthView, d: int)
    ensures DayBucket(s + [t], v, d) == DayBucket(s, v, d) + (if DueOn(t, v, d) then [t] else [])
  {
    if s == [] {
      assert s + [t] == [t];
      assert [t][1..] == [];
    } else {
      assert (s + [t])[0] == s[0];
      assert (s + [t])[1..] == s[1..] + [t];
      DayBucketAppend(s[1..], t, v, d);
    }
  }

  /** Filtering the month first loses nothing from any day. */
  lemma {:induction false} DayBucketOfMonth(tasks: seq<Task>, v: MonthView, d: int)
    ensures DayBucket(MonthTasks(tasks, v), v, d) == DayBucket(tasks, v, d)
  {
    if tasks != [] {
      DayBucketOfMonth(tasks[1..], v, d);
      var head := if InMonth(tasks[0], v) then [tasks[0]] else [];
      var rest := MonthTasks(tasks[1..], v);
      assert MonthTasks(tasks, v) == head + rest;
      if InMonth(tasks[0], v) {
        assert (head + rest)[0] == tasks[0] && (head + rest)[1..] == rest;
      } else {
        assert head + rest == rest;
      }
    }
  }

  /** `buckets` is the day table of the tasks in `s`: a day has an entry
      exactly when some task of `s` is due on it, and the entry is that
      day's tasks in order. */
  ghost predicate Grouped(buckets: map<int, seq<Task>>, s: seq<Task>, v: MonthView) {
    forall d :: (d in buckets <==> DayBucket(s, v, d) != []) && (d in buckets ==> buckets[d] == DayBucket(s, v, d))
  }

  /** Pushing a task of the month onto the list of its day keeps the table
      in step with the tasks seen so far. */
  lemma GroupStep(buckets: map<int, seq<Task>>, s: seq<Task>, t: Task, v: MonthView)
    requires Grouped(buckets, s, v) && InMonth(t, v)
    ensures var key := t.dueDate.value.day;
            Grouped(buckets[key := if key in buckets then buckets[key] + [t] else [t]], s + [t], v)
  {
    var key := t.dueDate.value.day;
    var next := buckets[key := if key in buckets then buckets[key] + [t] else [t]];
    forall d ensures (d in next <==> DayBucket(s + [t], v, d) != [])
                     && (d in next ==> next[d] == DayBucket(s + [t], v, d)) {
      DayBucketAppend(s, t, v, d);
      assert DueOn(t, v, d) <==> d == key;
    }
  }

  /** The `monthTasks.forEach` loop: each task, all of them due in the
      displayed month, is pushed onto the list of its day, the list being
      created on first use. */
  method PushByDay(month: seq<Task>, v: MonthView) returns (buckets: map<int, seq<Task>>)
    requires forall i | 0 <= i < |month| :: InMonth(month[i], v)
    ensures Grouped(buckets, month, v)
  {
    buckets := map[];
    var i := 0;
    while i < |month|
      invariant 0 <= i <= |month|
      invariant Grouped(buckets, month[..i], v)
    {
      var t := month[i];
      var key := t.dueDate.value.day;
      GroupStep(buckets, month[..i], t, v);
      assert month[..i + 1] == month[..i] + [t];
      buckets := buckets[key := if key in buckets then buckets[key] + [t] else [t]];
      i := i + 1;
    }
    assert month[..|month|] == month;
  }

  /** The `tasksByDate` table: the month's tasks pushed one by one onto the
      list of their day.  A day has an entry exactly when some task is due
      on it, and the entry is that day's tasks in list order. */
  method GroupByDay(tasks: seq<Task>, v: MonthView) returns (buckets: map<int, seq<Task>>)
    ensures forall d :: d in buckets <==> DayBucket(tasks, v, d) != []
    ensures forall d | d in buckets :: buckets[d] == DayBucket(tasks, v, d)
  {
    var month := MonthTasks(tasks, v);
    assert forall i | 0 <= i < |month| :: month[i] in month;
    buckets := PushByDay(month, v);
    GroupedMonth(buckets, tasks, v);
  }

  /** The table of the month's tasks is the table of all tasks. */
  lemma GroupedMonth(buckets: map<int, seq<Task>>, tasks: seq<Task>, v: MonthView)
    requires Grouped(buckets, MonthTasks(tasks, v), v)
    ensures Grouped(buckets, tasks, v)
  {
    forall d ensures DayBucket(MonthTasks(tasks, v), v, d) == DayBucket(tasks, v, d) {
      DayBucketOfMonth(tasks, v, d);
    }
  }

  // ------------------------------------------------------------- day cells

  /** What one day cell of the grid shows. */
  datatype DayCell = DayCell(
    day: int,
    isToday: bool,
    hasTasks: bool,
    multiple: bool,
    preview: seq<Task>,
    more: nat,
    badge: Option<nat>,
    tooltip: seq<string>,
    dotTodo: bool,
    dotInProgress: bool,
    dotCompleted: bool)

  const PreviewSize: nat := 2

  /** The titles of a day's tasks, in order, as the tooltip lists them. */
  function Titles(ts: seq<Task>): (r: seq<string>)
    ensures |r| == |ts|
    ensures forall i | 0 <= i < |ts| :: r[i] == ts[i].title
  {
    if ts == [] then [] else [ts[0].title] + Titles(ts[1..])
  }

  /** The cell of day `d` holding `bucket`: the first two tasks as preview, a
      "+n more" row for the rest, a count badge from two tasks on, and one
      dot per status present among the day's tasks. */
  function MakeCell(bucket: seq<Task>, d: int, v: MonthView, today: Date): (c: DayCell)
    ensures c.day == d
    ensures c.isToday <==> today == Date(v.year, v.month, d)
    ensures c.hasTasks <==> |bucket| > 0
    ensures c.multiple <==> |bucket| > 1
    ensures |c.preview| == if |bucket| < PreviewSize then |bucket| else PreviewSize
    ensures IsPrefixSeq(c.preview, bucket)
    ensures |c.preview| + c.more == |bucket|
    ensures c.badge.Some? <==> |bucket| > 1
    ensures c.badge.Some? ==> c.badge.value == |bucket|
    ensures |c.tooltip| == |bucket| && forall i | 0 <= i < |bucket| :: c.tooltip[i] == bucket[i].title
    ensures c.dotTodo <==> exists t | t in bucket :: t.status == StatusTodo
    ensures c.dotInProgress <==> exists t | t in bucket :: t.status == StatusInProgress
    ensures c.dotCompleted <==> exists t | t in bucket :: t.status == StatusCompleted
  {
    var n := |bucket|;
    var shown := if n < PreviewSize then bucket else bucket[..PreviewSize];
    DayCell(
      d,
      today.day == d && today.month == v.month && today.year == v.year,
      n > 0,
      n > 1,
      shown,
      if n > PreviewSize then n - PreviewSize else 0,
      if n > 1 then Some(n) else None,
      Titles(bucket),
      HasStatus(bucket, StatusTodo),
      HasStatus(bucket, StatusInProgress),
      HasStatus(bucket, StatusCompleted))
  }

  predicate IsPrefixSeq<T(==)>(p: seq<T>, s: seq<T>) {
    |p| <= |s| && p == s[..|p|]
  }

  /** `filter(t => t.status === s).length > 0`. */
  function HasStatus(ts: seq<Task>, s: string): (b: bool)
    ensures b <==> exists t | t in ts :: t.status == s
  {
    if ts == [] then false
    else
      assert forall t | t in ts[1..] :: t in ts;
      assert forall t | t in ts :: t == ts[0] || t in ts[1..];
      ts[0].status == s || HasStatus(ts[1..], s)
  }

  /** The grid's day cells, one per day of the displayed month: the cell of
      day `d` shows exactly the tasks due on day `d` of that month, in list
      order. */
  method RenderMonth(tasks: seq<Task>, v: MonthView, today: Date) returns (cells: seq<DayCell>)
    requires ValidView(v)
    ensures |cells| == DaysInMonth(v.year, v.month)
    ensures forall i | 0 <= i < |cells| :: cells[i] == MakeCell(DayBucket(tasks, v, i + 1), i + 1, v, today)
  {
    var buckets := GroupByDay(tasks, v);
    var last := DaysInMonth(v.year, v.month);
    cells := [];
    var d := 1;
    while d <= last
      invariant 1 <= d <= last + 1
      invariant |cells| == d - 1
      invariant forall i | 0 <= i < |cells| :: cells[i] == MakeCell(DayBucket(tasks, v, i + 1), i + 1, v, today)
    {
      var dayTasks := if d in buckets then buckets[d] else [];
      assert dayTasks == DayBucket(tasks, v, d);
      var cell := MakeCell(dayTasks, d, v, today);
      ghost var before := cells;
      cells := cells + [cell];
      assert forall i | 0 <= i < |before| :: cells[i] == before[i];
      assert cells[d - 1] == cell;
      d := d + 1;
    }
  }
}
