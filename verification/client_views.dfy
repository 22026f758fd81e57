/** Views the dashboard derives from the task list it holds: the status
    counters, the search filter, the due-date badges, the card description,
    the status and priority labels and the avatar initials.  Each is a pure
    function of the list (or of one task); nothing here changes the list. */
module ClientViews {
  import opened Wrappers
  import opened Text
  import opened Tasks

  // ----------------------------------------------------------------- stats

  datatype Stats = Stats(total: nat, todo: nat, inProgress: nat, completed: nat)

  /** How many tasks carry status `s`. */
  function CountStatus(tasks: seq<Task>, s: string): (n: nat)
    ensures n <= |tasks|
  {
    if tasks == [] then 0
    else (if tasks[0].status == s then 1 else 0) + CountStatus(tasks[1..], s)
  }

  /** How many tasks carry none of the three known statuses. */
  function CountUnknown(tasks: seq<Task>): (n: nat)
    ensures n <= |tasks|
  {
    if tasks == [] then 0
    else (if IsKnownStatus(tasks[0].status) then 0 else 1) + CountUnknown(tasks[1..])
  }

  /** Every task is counted once: under its known status, or as unknown. */
  lemma {:induction false} StatusCountsPartition(tasks: seq<Task>)
    ensures CountStatus(tasks, StatusTodo) + CountStatus(tasks, StatusInProgress)
            + CountStatus(tasks, StatusCompleted) + CountUnknown(tasks) == |tasks|
  {
    if tasks != [] {
      StatusCountsPartition(tasks[1..]);
    }
  }

  /** `calculateStats`: the total is the list length, each counter counts
      its status, and the three counters never exceed the total; they add
      up to it exactly when every status is a known one. */
  function CalculateStats(tasks: seq<Task>): (st: Stats)
    ensures st.total == |tasks|
    ensures st.todo == CountStatus(tasks, StatusTodo)
    ensures st.inProgress == CountStatus(tasks, StatusInProgress)
    ensures st.completed == CountStatus(tasks, StatusCompleted)
    ensures st.todo + st.inProgress + st.completed <= st.total
    ensures st.todo + st.inProgress + st.completed == st.total <==> CountUnknown(tasks) == 0
  {
    StatusCountsPartition(tasks);
    Stats(|tasks|, CountStatus(tasks, StatusTodo), CountStatus(tasks, StatusInProgress),
          CountStatus(tasks, StatusCompleted))
  }

  // ---------------------------------------------------------------- search

  /** `a` is `b` with some elements left out, the rest in order. */
  predicate IsSubsequence<T(==)>(a: seq<T>, b: seq<T>)
    decreases |b|
  {
    a == [] || (b != [] && ((a[0] == b[0] && IsSubsequence(a[1..], b[1..])) || IsSubsequence(a, b[1..])))
  }

  /** The lower-cased title, or the lower-cased description when there is
      one, contains the (already lower-cased) search term. */
  predicate MatchesTerm(t: Task, term: string) {
    Contains(Lower(t.title), term) || (t.description != "" && Contains(Lower(t.description), term))
  }

  /** The tasks matching `term`, in list order, each as often as it occurs. */
  function FilterMatching(tasks: seq<Task>, term: string): (r: seq<Task>)
    ensures IsSubsequence(r, tasks)
    ensures forall x | x in r :: MatchesTerm(x, term)
    ensures forall x :: multiset(r)[x] == if MatchesTerm(x, term) then multiset(tasks)[x] else 0
  {
    if tasks == [] then []
    else
      var rest := FilterMatching(tasks[1..], term);
      assert tasks == [tasks[0]] + tasks[1..];
      if MatchesTerm(tasks[0], term) then [tasks[0]] + rest else rest
  }

  /** `searchTasks`: a blank query shows the whole list; otherwise the
      matching tasks, in list order, for the lower-cased query as typed (it
      is not trimmed). */
  function SearchTasks(tasks: seq<Task>, query: string): (r: seq<Task>)
    ensures IsBlank(query) ==> r == tasks
    ensures !IsBlank(query) ==> IsSubsequence(r, tasks)
    ensures !IsBlank(query) ==> forall x | x in r :: MatchesTerm(x, Lower(query))
    ensures !IsBlank(query) ==>
              forall x :: multiset(r)[x] == if MatchesTerm(x, Lower(query)) then multiset(tasks)[x] else 0
  {
    if IsBlank(query) then tasks else FilterMatching(tasks, Lower(query))
  }

  /** Case does not matter to the search: a query and its lower-cased form
      find the same tasks. */
  lemma SearchIgnoresQueryCase(tasks: seq<Task>, query: string)
    ensures SearchTasks(tasks, query) == SearchTasks(tasks, Lower(query))
  {
    assert forall i | 0 <= i < |query| :: LowerChar(LowerChar(query[i])) == LowerChar(query[i]);
    assert Lower(Lower(query)) == Lower(query);
    assert IsBlank(query) <==> IsBlank(Lower(query)) by {
      assert forall i | 0 <= i < |query| :: IsSpace(query[i]) <==> IsSpace(LowerChar(query[i]));
    }
  }

  // ------------------------------------------------------------- due dates

  /** The badge a task card shows for its due date. */
  datatype CardBadge = Overdue | DueToday | Tomorrow | InDays(days: int) | NoBadge

  /** The card's classification of the whole days left until the due date
      (`None` when the task has no due date). */
  function CardUrgency(daysLeft: Option<int>): (b: CardBadge)
    ensures daysLeft.None? ==> b == NoBadge
    ensures daysLeft.Some? ==>
              var d := daysLeft.value;
              && (b == Overdue <==> d < 0)
              && (b == DueToday <==> d == 0)
              && (b == Tomorrow <==> d == 1)
              && (b.InDays? <==> 2 <= d <= 7)
              && (b.InDays? ==> b.days == d)
              && (b == NoBadge <==> d > 7)
  {
    match daysLeft
    case None => NoBadge
    case Some(d) =>
      if d < 0 then Overdue
      else if d == 0 then DueToday
      else if d == 1 then Tomorrow
      else if d <= 7 then InDays(d)
      else NoBadge
  }

  /** How pressing a card badge is: overdue 4, today 3, tomorrow 2, within a
      week 1, none 0. */
  function Pressure(b: CardBadge): nat {
    match b
    case Overdue => 4
    case DueToday => 3
    case Tomorrow => 2
    case InDays(_) => 1
    case NoBadge => 0
  }

  /** The fewer days are left, the more pressing the badge. */
  lemma UrgencyMonotone(d1: int, d2: int)
    requires d1 <= d2
    ensures Pressure(CardUrgency(Some(d1))) >= Pressure(CardUrgency(Some(d2)))
  {
  }

  /** The urgency note of the calendar day dialog, a second and different
      classification. */
  datatype ModalNote = NoteOverdue | NoteDueToday | DueIn(days: Option<int>) | NoNote

  /** The dialog's classification.  With no due date the comparisons read
      `null` as 0 for `<` and `<=` but not for `===`, so the note reads
      "Due in null days"; the dialog only ever lists tasks with a due date. */
  function ModalUrgency(daysLeft: Option<int>): (n: ModalNote)
    ensures daysLeft.None? ==> n == DueIn(None)
    ensures daysLeft.Some? ==>
              var d := daysLeft.value;
              && (n == NoteOverdue <==> d < 0)
              && (n == NoteDueToday <==> d == 0)
              && (n.DueIn? <==> 1 <= d <= 3)
              && (n.DueIn? ==> n.days == Some(d))
              && (n == NoNote <==> d > 3)
  {
    match daysLeft
    case None => DueIn(None)
    case Some(d) =>
      if d < 0 then NoteOverdue
      else if d == 0 then NoteDueToday
      else if d <= 3 then DueIn(Some(d))
      else NoNote
  }

  /** The two classifications agree on overdue and today; the dialog flags a
      strictly shorter horizon (three days against the card's seven) and
      never flags a task the card leaves unmarked. */
  lemma ModalAndCardUrgency(d: int)
    ensures ModalUrgency(Some(d)) == NoteOverdue <==> CardUrgency(Some(d)) == Overdue
    ensures ModalUrgency(Some(d)) == NoteDueToday <==> CardUrgency(Some(d)) == DueToday
    ensures ModalUrgency(Some(d)) != NoNote ==> CardUrgency(Some(d)) != NoBadge
    ensures 4 <= d <= 7 ==> ModalUrgency(Some(d)) == NoNote && CardUrgency(Some(d)) == InDays(d)
  {
  }

  // ----------------------------------------------------------- description

  const DescriptionLimit: nat := 150
  const Ellipsis: string := "..."
  const NoDescriptionText: string := "No description provided"

  /** The card's description: a placeholder when there is none, the first
      150 characters and an ellipsis when it is longer, otherwise as is. */
  function CardDescription(desc: string): (r: string)
    ensures desc == "" ==> r == NoDescriptionText
    ensures 0 < |desc| <= DescriptionLimit ==> r == desc
    ensures |desc| > DescriptionLimit ==>
              |r| == DescriptionLimit + |Ellipsis| && IsPrefix(r[..DescriptionLimit], desc)
              && r[DescriptionLimit..] == Ellipsis
  {
    if desc == "" then NoDescriptionText
    else if |desc| > DescriptionLimit then desc[..DescriptionLimit] + Ellipsis
    else desc
  }

  /** Shortening a shortened description changes nothing more. */
  lemma CardDescriptionIdempotent(desc: string)
    requires desc != ""
    ensures CardDescription(CardDescription(desc)) == CardDescription(desc)
  {
    if |desc| > DescriptionLimit {
      var r := CardDescription(desc);
      assert r[..DescriptionLimit] + Ellipsis == r;
    }
  }

  // ---------------------------------------------------------------- labels

  /** `getStatusText`: the label of a known status, anything else as is. */
  function StatusText(s: string): (r: string)
    ensures s == StatusTodo ==> r == "To Do"
    ensures s == StatusInProgress ==> r == "In Progress"
    ensures s == StatusCompleted ==> r == "Completed"
    ensures !IsKnownStatus(s) ==> r == s
  {
    if s == StatusTodo then "To Do"
    else if s == StatusInProgress then "In Progress"
    else if s == StatusCompleted then "Completed"
    else s
  }

  /** `getPriorityText`: the label of a known priority, anything else as is. */
  function PriorityText(p: string): (r: string)
    ensures p == PriorityHigh ==> r == "High Priority"
    ensures p == PriorityMedium ==> r == "Medium Priority"
    ensures p == PriorityLow ==> r == "Low Priority"
    ensures p != PriorityHigh && p != PriorityMedium && p != PriorityLow ==> r == p
  {
    if p == PriorityHigh then "High Priority"
    else if p == PriorityMedium then "Medium Priority"
    else if p == PriorityLow then "Low Priority"
    else p
  }

  /** `task.priority || 'medium'`: the priority a card shows. */
  function CardPriority(t: Task): (p: string)
    ensures t.priority.None? || t.priority == Some("") ==> p == PriorityMedium
    ensures t.priority.Some? && t.priority.value != "" ==> p == t.priority.value
  {
    if t.priority.None? || t.priority.value == "" then PriorityMedium else t.priority.value
  }

  /** Distinct known statuses get distinct labels, and a label never equals
      a known status name, so the status of a labelled known task can be
      read back from its label. */
  lemma StatusTextInjective(a: string, b: string)
    requires IsKnownStatus(a) && IsKnownStatus(b)
    ensures StatusText(a) == StatusText(b) ==> a == b
    ensures !IsKnownStatus(StatusText(a))
  {
  }

  // -------------------------------------------------------------- initials

  /** The first character of every non-empty piece, in order (`word[0]` of
      an empty piece is `undefined`, which `join('')` drops). */
  function FirstChars(words: seq<string>): string {
    if words == [] then ""
    else (if words[0] == "" then "" else [words[0][0]]) + FirstChars(words[1..])
  }

  /** An independent reading of the same thing: scanning the name, keep each
      non-space character that starts the name or follows a space. */
  function WordStarts(s: string, afterSpace: bool): string {
    if s == [] then ""
    else if s[0] == ' ' then WordStarts(s[1..], true)
    else (if afterSpace then [s[0]] else "") + WordStarts(s[1..], false)
  }

  /** Taking the first character of each piece of `split(' ')` is taking the
      character at each word start. */
  lemma {:induction false} FirstCharsOfSplit(s: string)
    ensures FirstChars(Split(s, ' ')) == WordStarts(s, true)
    ensures FirstChars(Split(s, ' ')[1..]) == WordStarts(s, false)
    decreases |s|
  {
    if s != [] {
      FirstCharsOfSplit(s[1..]);
      var rest := Split(s[1..], ' ');
      if s[0] == ' ' {
        assert Split(s, ' ') == [""] + rest;
        assert Split(s, ' ')[1..] == rest;
      } else {
        assert Split(s, ' ') == [[s[0]] + rest[0]] + rest[1..];
        assert Split(s, ' ')[1..] == rest[1..];
      }
    }
  }

  /** The avatar's initials: first letters of the space-separated words,
      upper-cased, at most two. */
  function Initials(name: string): (r: string)
    ensures |r| <= 2
    ensures var starts := Upper(WordStarts(name, true));
            r == if |starts| <= 2 then starts else starts[..2]
  {
    FirstCharsOfSplit(name);
    var all := Upper(FirstChars(Split(name, ' ')));
    if |all| <= 2 then all else all[..2]
  }

  /** The avatar shows initials only for a real name, not for an empty one
      or the loading placeholder. */
  function AvatarInitials(name: string): (r: Option<string>)
    ensures r.None? <==> name == "" || name == "Loading..."
    ensures r.Some? ==> r.value == Initials(name)
  {
    if name == "" || name == "Loading..." then None else Some(Initials(name))
  }

  /** Two words give both initials. */
  lemma InitialsTwoWords()
    ensures Initials("ab cd") == "AC"
  {
    var s := "ab cd";
    assert s[1..] == "b cd" && s[1..][1..] == " cd" && s[1..][1..][1..] == "cd" && "cd"[1..] == "d";
    assert WordStarts("d", false) == "";
    assert WordStarts("cd", true) == "c";
    assert WordStarts(" cd", false) == "c";
    assert WordStarts("b cd", false) == "c";
    assert WordStarts(s, true) == "ac";
    assert Upper("ac") == "AC";
  }

  /** Runs of spaces only separate words, and a third word is cut off. */
  lemma InitialsSkipSpaces()
    ensures Initials(" x  y z") == "XY"
  {
    var s := " x  y z";
    assert s[1..] == "x  y z" && s[1..][1..] == "  y z" && s[1..][1..][1..] == " y z";
    assert " y z"[1..] == "y z" && "y z"[1..] == " z" && " z"[1..] == "z";
    assert WordStarts("z", true) == "z";
    assert WordStarts(" z", false) == "z";
    assert WordStarts("y z", true) == "yz";
    assert WordStarts(" y z", false) == "yz";
    assert WordStarts("  y z", false) == "yz";
    assert WordStarts("x  y z", true) == "xyz";
    assert WordStarts(s, true) == "xyz";
    assert Upper("xyz") == "XYZ";
    assert "XYZ"[..2] == "XY";
  }
}
