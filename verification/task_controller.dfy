/** The task controller: create, list, get, update and delete over an
    owner-scoped store.  Every lookup is by (task id, owner), so a task that
    belongs to someone else is reported exactly like a task that does not
    exist.  The title validation the routes attach arrives here as the list
    of error messages it produced. */
module TaskController {
  import opened Wrappers
  import opened Dates
  import opened Tasks

  /** The task collection, keyed by task id. */
  type Store = map<TaskId, Task>

  /** Every stored task carries the id it is stored under. */
  ghost predicate WellFormed(store: Store) {
    forall k | k in store :: store[k].id == k
  }

  /** The six fields a create or update body may carry; `None` is a field the
      JSON body did not contain (`undefined` after destructuring). */
  datatype TaskBody = TaskBody(
    title: Option<string>,
    description: Option<string>,
    status: Option<string>,
    priority: Option<string>,
    dueDate: Option<Date>,
    progress: Option<int>)

  const EmptyBody: TaskBody := TaskBody(None, None, None, None, None, None)

  /** What the schema fills in for the fields create does not pass on.  The
      schema is not part of this model, so these values are a parameter. */
  datatype ModelDefaults = ModelDefaults(priority: Option<string>, dueDate: Option<Date>, progress: int)

  /** A controller or route outcome; `Code` gives its HTTP status. */
  datatype TaskReply =
    | Created(task: Task)
    | Listed(count: nat, data: seq<Task>)
    | Found(task: Task)
    | Updated(task: Task)
    | Deleted
    | Invalid(errors: seq<string>)
    | NotFound
    | Unauthorized

  const NotFoundMessage: string := "Task not found"

  function Code(r: TaskReply): int {
    match r
    case Created(_) => 201
    case Listed(_, _) => 200
    case Found(_) => 200
    case Updated(_) => 200
    case Deleted => 200
    case Invalid(_) => 400
    case NotFound => 404
    case Unauthorized => 401
  }

  /** A reply together with the store it leaves behind. */
  datatype Step = Step(reply: TaskReply, store: Store)

  /** JavaScript's `s || fallback` for a string that may be absent: both a
      missing and an empty string fall back. */
  function StringOr(s: Option<string>, fallback: string): string {
    if s.None? || s.value == "" then fallback else s.value
  }

  /** `findOne({ _id: id, user })`: the task exists and belongs to `user`. */
  predicate Owns(store: Store, user: UserId, id: TaskId) {
    id in store && store[id].owner == user
  }

  // ---------------------------------------------------------------- create

  /** Create: a failed validation answers 400 and stores nothing; otherwise a
      task owned by the requester is stored under the fresh id, with an empty
      description and the `todo` status when those are missing or empty.  The
      body's priority, due date and progress are not passed on. */
  function CreateTask(store: Store, user: UserId, errors: seq<string>, body: TaskBody,
                      id: TaskId, now: int, defaults: ModelDefaults): (s: Step)
    requires id !in store
    requires errors == [] ==> body.title.Some?
    ensures errors != [] ==> s == Step(Invalid(errors), store)
    ensures errors == [] ==> s.reply.Created? && s.store == store[id := s.reply.task]
    ensures errors == [] ==>
              var t := s.reply.task;
              && t.id == id && t.owner == user && t.createdAt == now
              && t.title == body.title.value
              && (body.description.None? || body.description == Some("") ==> t.description == "")
              && (body.description.Some? && body.description.value != "" ==> t.description == body.description.value)
              && (body.status.None? || body.status == Some("") ==> t.status == StatusTodo)
              && (body.status.Some? && body.status.value != "" ==> t.status == body.status.value)
              && t.priority == defaults.priority
              && t.dueDate == defaults.dueDate
              && t.progress == defaults.progress
  {
    if errors != [] then Step(Invalid(errors), store)
    else
      var t := Task(id, user, body.title.value, StringOr(body.description, ""),
                    StringOr(body.status, StatusTodo), defaults.priority, defaults.dueDate,
                    defaults.progress, now);
      Step(Created(t), store[id := t])
  }

  // ------------------------------------------------------------------ list

  /** The status query narrows the list only when it names one of the three
      statuses; anything else, including no query, lists everything. */
  function StatusFilter(query: Option<string>): (f: Option<string>)
    ensures f.Some? <==> query.Some? && IsKnownStatus(query.value)
    ensures f.Some? ==> f == query
  {
    if query.Some? && query.value != "" && IsKnownStatus(query.value) then query else None
  }

  /** The key is one of `user`'s tasks that passes the status filter. */
  predicate Selected(store: Store, user: UserId, filter: Option<string>, k: TaskId) {
    Owns(store, user, k) && (filter.None? || store[k].status == filter.value)
  }

  function IdsOf(s: seq<Task>): set<TaskId> {
    set i | 0 <= i < |s| :: s[i].id
  }

  predicate DistinctIds(s: seq<Task>) {
    forall i, j | 0 <= i < j < |s| :: s[i].id != s[j].id
  }

  /** `.sort({ createdAt: -1 })`. */
  predicate NewestFirst(s: seq<Task>) {
    forall i, j | 0 <= i < j < |s| :: s[i].createdAt >= s[j].createdAt
  }

  /** Where a task goes in a newest-first list: after every task at least as
      new, before every older one. */
  function InsertPosition(t: Task, s: seq<Task>): (p: nat)
    requires NewestFirst(s)
    ensures p <= |s|
    ensures forall i | 0 <= i < p :: s[i].createdAt >= t.createdAt
    ensures forall i | p <= i < |s| :: s[i].createdAt < t.createdAt
  {
    if s == [] then 0
    else if s[0].createdAt < t.createdAt then 0
    else 1 + InsertPosition(t, s[1..])
  }

  /** A newest-first list with one more task inserted in its place. */
  function InsertNewest(t: Task, s: seq<Task>): (r: seq<Task>)
    requires NewestFirst(s)
    ensures |r| == |s| + 1
    ensures NewestFirst(r)
    ensures IdsOf(r) == IdsOf(s) + {t.id}
    ensures forall x | x in r :: x == t || x in s
    ensures t.id !in IdsOf(s) && DistinctIds(s) ==> DistinctIds(r)
  {
    var p := InsertPosition(t, s);
    SpliceSorted(t, s, p);
    SpliceIds(t, s, p);
    SpliceDistinct(t, s, p);
    s[..p] + [t] + s[p..]
  }

  lemma SpliceSorted(t: Task, s: seq<Task>, p: nat)
    requires NewestFirst(s) && p <= |s|
    requires forall i | 0 <= i < p :: s[i].createdAt >= t.createdAt
    requires forall i | p <= i < |s| :: s[i].createdAt < t.createdAt
    ensures NewestFirst(s[..p] + [t] + s[p..])
  {
    var r := s[..p] + [t] + s[p..];
    assert forall i | 0 <= i < p :: r[i] == s[i];
    assert forall i | p < i < |r| :: r[i] == s[i - 1];
  }

  lemma SpliceIds(t: Task, s: seq<Task>, p: nat)
    requires p <= |s|
    ensures IdsOf(s[..p] + [t] + s[p..]) == IdsOf(s) + {t.id}
  {
    var r := s[..p] + [t] + s[p..];
    forall k | k in IdsOf(s) ensures k in IdsOf(r) {
      var i :| 0 <= i < |s| && s[i].id == k;
      if i < p { assert r[i].id == k; } else { assert r[i + 1].id == k; }
    }
    forall k | k in IdsOf(r) ensures k in IdsOf(s) + {t.id} {
      var i :| 0 <= i < |r| && r[i].id == k;
      if i < p { assert s[i].id == k; } else if i > p { assert s[i - 1].id == k; }
    }
    assert r[p].id == t.id;
  }

  lemma SpliceDistinct(t: Task, s: seq<Task>, p: nat)
    requires p <= |s|
    ensures t.id !in IdsOf(s) && DistinctIds(s) ==> DistinctIds(s[..p] + [t] + s[p..])
  {
    if t.id !in IdsOf(s) && DistinctIds(s) {
      var r := s[..p] + [t] + s[p..];
      assert forall i | 0 <= i < p :: r[i] == s[i];
      assert forall i | p < i < |r| :: r[i] == s[i - 1];
      assert forall i | 0 <= i < |s| :: s[i].id in IdsOf(s);
    }
  }

  /** List: exactly the requester's tasks that pass the status filter, each
      once and as stored, newest first; `count` is the length of the list. */
  method ListTasks(store: Store, user: UserId, query: Option<string>) returns (reply: TaskReply)
    requires WellFormed(store)
    ensures reply.Listed? && reply.count == |reply.data|
    ensures forall k :: k in IdsOf(reply.data) <==> Selected(store, user, StatusFilter(query), k)
    ensures forall x | x in reply.data :: x.id in store && x == store[x.id]
    ensures DistinctIds(reply.data)
    ensures NewestFirst(reply.data)
  {
    var filter := StatusFilter(query);
    var remaining := store.Keys;
    var data: seq<Task> := [];
    while remaining != {}
      invariant remaining <= store.Keys
      invariant forall x | x in data :: x.id in store && x == store[x.id] && Selected(store, user, filter, x.id)
      invariant forall k | k in IdsOf(data) :: k in store && Selected(store, user, filter, k) && k !in remaining
      invariant forall k | k in store && k !in remaining && Selected(store, user, filter, k) :: k in IdsOf(data)
      invariant DistinctIds(data)
      invariant NewestFirst(data)
      decreases remaining
    {
      var k :| k in remaining;
      remaining := remaining - {k};
      if Selected(store, user, filter, k) {
        data := InsertNewest(store[k], data);
      }
    }
    reply := Listed(|data|, data);
  }

  // ------------------------------------------------------------------- get

  /** Get: the owned task, or `NotFound` whether it is missing or foreign. */
  function GetTask(store: Store, user: UserId, id: TaskId): (r: TaskReply)
    ensures r.Found? || r == NotFound
    ensures r.Found? <==> id in store && store[id].owner == user
    ensures r.Found? ==> r.task == store[id]
  {
    if Owns(store, user, id) then Found(store[id]) else NotFound
  }

  // ---------------------------------------------------------------- update

  /** The request marks the task completed without a progress of at least
      100, so progress is forced to 100. */
  predicate ForcesFullProgress(body: TaskBody) {
    body.status == Some(StatusCompleted) && (body.progress.None? || body.progress.value < 100)
  }

  /** The partial merge followed by the completion rule. */
  function ApplyUpdate(t: Task, body: TaskBody): (r: Task)
    ensures r.id == t.id && r.owner == t.owner && r.createdAt == t.createdAt
    ensures body.title.None? ==> r.title == t.title
    ensures body.title.Some? ==> r.title == body.title.value
    ensures body.description.None? ==> r.description == t.description
    ensures body.description.Some? ==> r.description == body.description.value
    ensures body.status.None? ==> r.status == t.status
    ensures body.status.Some? ==> r.status == body.status.value
    ensures body.priority.None? ==> r.priority == t.priority
    ensures body.priority.Some? ==> r.priority == body.priority
    ensures body.dueDate.None? ==> r.dueDate == t.dueDate
    ensures body.dueDate.Some? ==> r.dueDate == body.dueDate
    ensures ForcesFullProgress(body) ==> r.progress == 100
    ensures body.status == Some(StatusCompleted) ==> r.progress >= 100
    ensures (body.status == Some(StatusCompleted) && body.progress.Some? && body.progress.value >= 100)
              ==> r.progress == body.progress.value
    ensures body.status != Some(StatusCompleted) && body.progress.None? ==> r.progress == t.progress
    ensures body.status != Some(StatusCompleted) && body.progress.Some? ==> r.progress == body.progress.value
  {
    var merged := t.(
      title := body.title.GetOr(t.title),
      description := body.description.GetOr(t.description),
      status := body.status.GetOr(t.status),
      priority := if body.priority.Some? then body.priority else t.priority,
      dueDate := if body.dueDate.Some? then body.dueDate else t.dueDate,
      progress := body.progress.GetOr(t.progress));
    if ForcesFullProgress(body) then merged.(progress := 100) else merged
  }

  /** Update: a failed validation answers 400 before any lookup; a missing
      or foreign task answers 404; otherwise the merged task replaces the
      stored one and nothing else in the store changes. */
  function UpdateTask(store: Store, user: UserId, id: TaskId, errors: seq<string>, body: TaskBody): (s: Step)
    ensures errors != [] ==> s == Step(Invalid(errors), store)
    ensures errors == [] && !Owns(store, user, id) ==> s == Step(NotFound, store)
    ensures errors == [] && Owns(store, user, id) ==>
              s.reply == Updated(ApplyUpdate(store[id], body))
              && s.store == store[id := ApplyUpdate(store[id], body)]
  {
    if errors != [] then Step(Invalid(errors), store)
    else if !Owns(store, user, id) then Step(NotFound, store)
    else
      var t := ApplyUpdate(store[id], body);
      Step(Updated(t), store[id := t])
  }

  // ---------------------------------------------------------------- delete

  /** Delete: removes the one owned task, or answers 404 and removes
      nothing; every other entry is untouched either way. */
  function DeleteTask(store: Store, user: UserId, id: TaskId): (s: Step)
    ensures Owns(store, user, id) ==> s.reply == Deleted && s.store.Keys == store.Keys - {id}
    ensures !Owns(store, user, id) ==> s == Step(NotFound, store)
    ensures forall k | k in s.store :: k in store && s.store[k] == store[k]
    ensures forall k | k in store && k != id :: k in s.store
  {
    if Owns(store, user, id) then Step(Deleted, store - {id}) else Step(NotFound, store)
  }

  // ---------------------------------------------------------------- lemmas

  /** Create, update and delete keep every task stored under its own id. */
  lemma MutationsPreserveWellFormed(store: Store, user: UserId, id: TaskId, errors: seq<string>,
                                    body: TaskBody, newId: TaskId, now: int, defaults: ModelDefaults)
    requires WellFormed(store)
    requires newId !in store
    requires errors == [] ==> body.title.Some?
    ensures WellFormed(CreateTask(store, user, errors, body, newId, now, defaults).store)
    ensures WellFormed(UpdateTask(store, user, id, errors, body).store)
    ensures WellFormed(DeleteTask(store, user, id).store)
  {
  }

  /** A task that belongs to another user is answered exactly as if it did
      not exist, by get, update and delete alike. */
  lemma ForeignTaskLooksMissing(store: Store, user: UserId, id: TaskId, errors: seq<string>, body: TaskBody)
    requires id in store && store[id].owner != user
    ensures GetTask(store, user, id) == NotFound
    ensures GetTask(store, user, id) == GetTask(store - {id}, user, id)
    ensures UpdateTask(store, user, id, errors, body).reply == UpdateTask(store - {id}, user, id, errors, body).reply
    ensures DeleteTask(store, user, id).reply == DeleteTask(store - {id}, user, id).reply
  {
  }

  /** Whatever one user sends to update or delete, no other user's task
      changes or disappears. */
  lemma OtherOwnersUntouched(store: Store, user: UserId, id: TaskId, errors: seq<string>, body: TaskBody, k: TaskId)
    requires k in store && store[k].owner != user
    ensures k in UpdateTask(store, user, id, errors, body).store
    ensures UpdateTask(store, user, id, errors, body).store[k] == store[k]
    ensures k in DeleteTask(store, user, id).store
    ensures DeleteTask(store, user, id).store[k] == store[k]
  {
  }

  /** Fetching a task right after creating it returns what was created. */
  lemma CreateThenGet(store: Store, user: UserId, body: TaskBody, id: TaskId, now: int, defaults: ModelDefaults)
    requires id !in store && body.title.Some?
    ensures var s := CreateTask(store, user, [], body, id, now, defaults);
            GetTask(s.store, user, id) == Found(s.reply.task)
  {
  }

  /** Create does not read the body's priority, due date or progress. */
  lemma CreateIgnoresExtraFields(store: Store, user: UserId, errors: seq<string>, body: TaskBody,
                                 id: TaskId, now: int, defaults: ModelDefaults)
    requires id !in store
    requires errors == [] ==> body.title.Some?
    ensures CreateTask(store, user, errors, body, id, now, defaults)
         == CreateTask(store, user, errors, body.(priority := None, dueDate := None, progress := None), id, now, defaults)
  {
  }

  /** An update that carries no field leaves the task exactly as it was. */
  lemma EmptyUpdateIsIdentity(t: Task)
    ensures ApplyUpdate(t, EmptyBody) == t
  {
  }

  /** Sending the same update twice has the effect of sending it once. */
  lemma UpdateIdempotent(t: Task, body: TaskBody)
    ensures ApplyUpdate(ApplyUpdate(t, body), body) == ApplyUpdate(t, body)
  {
  }

  /** The completion rule keys on the request, not on the stored status: an
      already completed task updated with a lower progress and no status
      keeps that progress. */
  lemma CompletionRuleReadsRequestOnly(t: Task, p: int)
    requires t.status == StatusCompleted && p < 100
    ensures ApplyUpdate(t, EmptyBody.(progress := Some(p))).status == StatusCompleted
    ensures ApplyUpdate(t, EmptyBody.(progress := Some(p))).progress == p
  {
  }

  /** A failed validation answers 400 whether or not the task exists. */
  lemma ValidationBeforeLookup(store: Store, user: UserId, id: TaskId, errors: seq<string>, body: TaskBody)
    requires errors != []
    ensures Code(UpdateTask(store, user, id, errors, body).reply) == 400
    ensures Code(UpdateTask(store - {id}, user, id, errors, body).reply) == 400
  {
  }
}
