/** What the dashboard does with the server's answers: the request bodies it
    sends, how it turns a failed response into an error message and that
    message into a notice, how it sums up a bulk operation, and the local
    check of the task form.  Network transport is not modelled: a request's
    outcome is the server model's reply, or for bulk operations a given
    sequence of response flags. */
module ClientActions {
  import opened Wrappers
  import opened Text
  import opened Dates
  import opened Tasks
  import opened TaskController
  import opened TaskRoutes

  // ------------------------------------------------------ failed responses

  /** A failed response's JSON body as the client reads it: its `message`
      and the `msg` of each entry of its `errors` array.  A body that does
      not parse reads as `{}`, both parts absent. */
  datatype ErrorBody = ErrorBody(message: Option<string>, errors: seq<string>)

  /** The body the task routes send with each failing reply; `gateBody` is
      what the authentication gate sends, whose code is not part of this
      model. */
  function ReplyBody(r: TaskReply, gateBody: ErrorBody): (b: ErrorBody)
    ensures r.Invalid? ==> b == ErrorBody(None, r.errors)
    ensures r == NotFound ==> b == ErrorBody(Some(NotFoundMessage), [])
  {
    match r
    case Invalid(errs) => ErrorBody(None, errs)
    case NotFound => ErrorBody(Some(NotFoundMessage), [])
    case Unauthorized => gateBody
    case _ => ErrorBody(None, [])
  }

  /** `response.ok`. */
  predicate IsOk(r: TaskReply) {
    200 <= Code(r) < 300
  }

  /** The status code as a count, for the `Server error: <status>` text. */
  function StatusOf(r: TaskReply): (n: nat)
    ensures n == Code(r)
  {
    Code(r)
  }

  const ServerErrorPrefix: string := "Server error: "

  /** `errorData.message || \`Server error: ${response.status}\``: the thrown
      error's message in load, delete and the form submit. */
  function ThrownMessage(body: ErrorBody, status: nat): (m: string)
    ensures body.message.Some? && body.message.value != "" ==> m == body.message.value
    ensures body.message.None? || body.message.value == "" ==> m == ServerErrorPrefix + NatToString(status)
  {
    if body.message.Some? && body.message.value != "" then body.message.value
    else ServerErrorPrefix + NatToString(status)
  }

  /** The status code is visible in the thrown message exactly when the body
      carried no message of its own. */
  lemma ThrownMessageShowsStatus(body: ErrorBody, status: nat)
    requires body.message.None? || body.message.value == ""
    ensures Contains(ThrownMessage(body, status), NatToString(status))
  {
    ContainsSuffix(ServerErrorPrefix, NatToString(status));
  }

  /** `errorData.message || errorData.errors?.[0]?.msg || \`Server error: …\``:
      the thrown error's message when completing one task. */
  function CompleteThrownMessage(body: ErrorBody, status: nat): (m: string)
    ensures body.message.Some? && body.message.value != "" ==> m == body.message.value
    ensures ((body.message.None? || body.message.value == "") && body.errors != [] && body.errors[0] != "")
              ==> m == body.errors[0]
    ensures ((body.message.None? || body.message.value == "") && (body.errors == [] || body.errors[0] == ""))
              ==> m == ServerErrorPrefix + NatToString(status)
  {
    if body.message.Some? && body.message.value != "" then body.message.value
    else if body.errors != [] && body.errors[0] != "" then body.errors[0]
    else ServerErrorPrefix + NatToString(status)
  }

  // --------------------------------------------------------------- notices

  /** What the page shows after a failed request, and whether it reloads. */
  datatype Notice =
    | SessionExpired
    | NetworkNotice
    | TitleRequiredNotice
    | TitleTooShortNotice
    | InvalidDataNotice
    | TaskGone
    | ShowMessage(text: string)

  /** Only the "task gone" notice reloads the list. */
  predicate Reloads(n: Notice) {
    n == TaskGone
  }

  const LoadFallback: string := "Failed to load tasks. Please try again."
  const CompleteFallback: string := "Failed to complete task"

  /** The load handler: a message naming 401 or a token means the session
      expired, one naming a network error is reported as such, anything else
      is shown as is (or a fallback text when empty). */
  function LoadFailure(message: string): (n: Notice)
    ensures n == SessionExpired <==> Contains(message, "401") || Contains(message, "token")
    ensures n == NetworkNotice <==>
              !Contains(message, "401") && !Contains(message, "token") && Contains(message, "Network error")
    ensures n.ShowMessage? <==>
              !Contains(message, "401") && !Contains(message, "token") && !Contains(message, "Network error")
    ensures n.ShowMessage? ==> n.text == if message == "" then LoadFallback else message
  {
    if Contains(message, "401") || Contains(message, "token") then SessionExpired
    else if Contains(message, "Network error") then NetworkNotice
    else ShowMessage(if message == "" then LoadFallback else message)
  }

  /** The complete handler: the two title messages, then 400, 404 and a
      network error, in that order; only 404 reloads. */
  function CompleteFailure(message: string): (n: Notice)
    ensures n == TitleRequiredNotice <==> Contains(message, TitleRequired)
    ensures n == TitleTooShortNotice <==> !Contains(message, TitleRequired) && Contains(message, "must be at least")
    ensures n == InvalidDataNotice <==>
              !Contains(message, TitleRequired) && !Contains(message, "must be at least") && Contains(message, "400")
    ensures n == TaskGone <==>
              && !Contains(message, TitleRequired) && !Contains(message, "must be at least")
              && !Contains(message, "400") && Contains(message, "404")
    ensures n == NetworkNotice <==>
              && !Contains(message, TitleRequired) && !Contains(message, "must be at least")
              && !Contains(message, "400") && !Contains(message, "404") && Contains(message, "Network error")
    ensures n.ShowMessage? <==>
              && !Contains(message, TitleRequired) && !Contains(message, "must be at least")
              && !Contains(message, "400") && !Contains(message, "404") && !Contains(message, "Network error")
    ensures Reloads(n) ==> Contains(message, "404")
    ensures n.ShowMessage? ==> n.text == if message == "" then CompleteFallback else message
    ensures n != SessionExpired
  {
    if Contains(message, TitleRequired) then TitleRequiredNotice
    else if Contains(message, "must be at least") then TitleTooShortNotice
    else if Contains(message, "400") then InvalidDataNotice
    else if Contains(message, "404") then TaskGone
    else if Contains(message, "Network error") then NetworkNotice
    else ShowMessage(if message == "" then CompleteFallback else message)
  }

  /** The delete handler as written: a message naming 404 means the task is
      gone and the list reloads; anything else is reported as a network
      error. */
  function DeleteFailure(message: string): (n: Notice)
    ensures n == TaskGone <==> Contains(message, "404")
    ensures n != TaskGone ==> n == NetworkNotice
  {
    if Contains(message, "404") then TaskGone else NetworkNotice
  }

  /** The corrected delete handler: it reads the response status, so the
      server's 404 is recognised whatever its body says. */
  function DeleteFailureByStatus(status: nat): (n: Notice)
    ensures n == TaskGone <==> status == 404
    ensures n != TaskGone ==> n == NetworkNotice
  {
    if status == 404 then TaskGone else NetworkNotice
  }

  /** The server's 404 message mentions no status code. */
  lemma NotFoundMessageHasNo404()
    ensures !Contains(NotFoundMessage, "404")
  {
    var m := NotFoundMessage;
    forall i | 0 <= i <= |m| ensures !IsPrefix("404", m[i..]) {
      if i < |m| { assert m[i..][0] == m[i]; }
    }
    NoPrefixNoContains(m, "404");
  }

  lemma {:induction false} NoPrefixNoContains(s: string, needle: string)
    requires forall i | 0 <= i <= |s| :: !IsPrefix(needle, s[i..])
    ensures !Contains(s, needle)
    decreases |s|
  {
    assert s[0..] == s;
    if s != [] {
      forall i | 0 <= i <= |s[1..]| ensures !IsPrefix(needle, s[1..][i..]) {
        assert s[1..][i..] == s[i + 1..];
      }
      NoPrefixNoContains(s[1..], needle);
    }
  }

  /** Deleting a task that is gone (or belongs to someone else): the server
      answers 404 with "Task not found", the thrown message is that text, it
      does not contain "404", so the page reports a network error and does
      not reload the stale list. */
  lemma DeleteOfMissingTaskMisreported(store: Store, user: UserId, id: TaskId, gateBody: ErrorBody)
    requires !Owns(store, user, id)
    ensures var r := DeleteTask(store, user, id).reply;
            && r == NotFound && !IsOk(r)
            && ThrownMessage(ReplyBody(r, gateBody), StatusOf(r)) == NotFoundMessage
            && DeleteFailure(ThrownMessage(ReplyBody(r, gateBody), StatusOf(r))) == NetworkNotice
            && !Reloads(DeleteFailure(ThrownMessage(ReplyBody(r, gateBody), StatusOf(r))))
  {
    var r := DeleteTask(store, user, id).reply;
    assert r == NotFound;
    var b := ReplyBody(r, gateBody);
    assert b.message == Some(NotFoundMessage) && NotFoundMessage != "";
    var m := ThrownMessage(b, StatusOf(r));
    assert m == NotFoundMessage;
    NotFoundMessageHasNo404();
    assert DeleteFailure(m) == NetworkNotice;
  }

  /** With the corrected handler the same request is recognised as a task
      that is gone, and the list reloads. */
  lemma DeleteOfMissingTaskRecognised(store: Store, user: UserId, id: TaskId)
    requires !Owns(store, user, id)
    ensures var r := DeleteTask(store, user, id).reply;
            DeleteFailureByStatus(StatusOf(r)) == TaskGone && Reloads(DeleteFailureByStatus(StatusOf(r)))
  {
  }

  /** Completing a task whose title fails the server's rule: the 400 body
      carries no message, its first error is the server's first title
      message, and the client's text matching picks the right notice. */
  lemma CompleteTitleErrorsRecognised(store: Store, user: UserId, id: TaskId, body: TaskBody,
                                      newId: TaskId, now: int, defaults: ModelDefaults, gateBody: ErrorBody)
    requires newId !in store
    requires TitleErrors(body.title) != []
    ensures var r := Dispatch(store, Some(user), PutTask(id, body), newId, now, defaults).reply;
            var n := CompleteFailure(CompleteThrownMessage(ReplyBody(r, gateBody), StatusOf(r)));
            && (body.title.None? || body.title.value == "" ==> n == TitleRequiredNotice)
            && (body.title.Some? && body.title.value != "" ==> n == TitleTooShortNotice)
  {
    var r := Dispatch(store, Some(user), PutTask(id, body), newId, now, defaults).reply;
    assert r == Invalid(TitleErrors(body.title));
    var m := CompleteThrownMessage(ReplyBody(r, gateBody), StatusOf(r));
    assert m == TitleErrors(body.title)[0];
    if body.title.None? || body.title.value == "" {
      assert m == TitleRequired;
      RequiredNamesItself();
    } else {
      assert m == TitleTooShort;
      TooShortNamesLengthRule();
      TooShortLacksRequired();
    }
  }

  lemma RequiredNamesItself()
    ensures Contains(TitleRequired, TitleRequired)
  {
    ContainsSuffix([], TitleRequired);
    assert [] + TitleRequired == TitleRequired;
  }

  lemma TooShortNamesLengthRule()
    ensures Contains(TitleTooShort, "must be at least")
  {
    assert TitleTooShort == "Title " + "must be at least" + " 3 characters";
    ContainsSuffix("Title ", "must be at least");
    ContainsPrefixExtend("Title " + "must be at least", " 3 characters", "must be at least");
  }

  /** Containment survives appending text. */
  lemma {:induction false} ContainsPrefixExtend(a: string, b: string, needle: string)
    requires Contains(a, needle)
    ensures Contains(a + b, needle)
    decreases |a|
  {
    if IsPrefix(needle, a) {
      assert (a + b)[..|needle|] == a[..|needle|];
    } else {
      assert (a + b)[1..] == a[1..] + b;
      ContainsPrefixExtend(a[1..], b, needle);
    }
  }

  /** "required" has a `q`, the length message has none. */
  lemma TooShortLacksRequired()
    ensures !Contains(TitleTooShort, TitleRequired)
  {
    assert TitleRequired[11] == 'q';
    assert 'q' !in TitleTooShort;
    if Contains(TitleTooShort, TitleRequired) {
      ContainsChar(TitleTooShort, TitleRequired, 11);
    }
  }

  /** A load refused by the gate with a body that has no message of its own
      reads as an expired session. */
  lemma LoadUnauthorizedExpiresSession(gateBody: ErrorBody)
    requires gateBody.message.None? || gateBody.message.value == ""
    ensures LoadFailure(ThrownMessage(ReplyBody(Unauthorized, gateBody), StatusOf(Unauthorized))) == SessionExpired
  {
    assert NatToString(401) == "401";
    ThrownMessageShowsStatus(gateBody, 401);
  }

  // ------------------------------------------------------------ bulk actions

  /** The summary of a bulk operation: all succeeded, or the 1-based
      positions of the requests that did not. */
  datatype BulkResult = AllSucceeded(count: nat) | SomeFailed(failed: seq<nat>)

  /** Reload only after a bulk operation in which every request succeeded. */
  predicate BulkReloads(r: BulkResult) {
    r.AllSucceeded?
  }

  /** Every position in `failed` is among the first `n` and failed. */
  ghost predicate OnlyFailures(failed: seq<nat>, oks: seq<bool>, n: nat)
    requires n <= |oks|
  {
    forall j | 0 <= j < |failed| :: 1 <= failed[j] <= n && !oks[failed[j] - 1]
  }

  /** Every failure among the first `n` has its position in `failed`. */
  ghost predicate AllFailures(failed: seq<nat>, oks: seq<bool>, n: nat)
    requires n <= |oks|
  {
    forall m | 0 <= m < n && !oks[m] :: m + 1 in failed
  }

  ghost predicate Increasing(failed: seq<nat>) {
    forall j, k | 0 <= j < k < |failed| :: failed[j] < failed[k]
  }

  /** `failed` holds, in increasing order, exactly the 1-based positions of
      the failed requests among the first `n`, and is empty exactly when
      none failed. */
  ghost predicate Collected(failed: seq<nat>, oks: seq<bool>, n: nat)
    requires n <= |oks|
  {
    && OnlyFailures(failed, oks, n)
    && AllFailures(failed, oks, n)
    && Increasing(failed)
    && (failed == [] <==> forall m | 0 <= m < n :: oks[m])
  }

  /** Looking at one more response keeps the collection exact. */
  lemma CollectStep(failed: seq<nat>, oks: seq<bool>, n: nat)
    requires n < |oks| && Collected(failed, oks, n)
    ensures Collected(failed + (if oks[n] then [] else [n + 1]), oks, n + 1)
  {
    if oks[n] {
      assert failed + [] == failed;
      CollectSuccess(failed, oks, n);
    } else {
      OnlyFailuresGrow(failed, oks, n);
      AllFailuresGrow(failed, oks, n);
      IncreasingGrow(failed, oks, n);
      assert failed + [n + 1] != [];
    }
  }

  lemma CollectSuccess(failed: seq<nat>, oks: seq<bool>, n: nat)
    requires n < |oks| && Collected(failed, oks, n) && oks[n]
    ensures Collected(failed, oks, n + 1)
  {
    forall m | 0 <= m < n + 1 && !oks[m] ensures m + 1 in failed {
      assert m < n;
    }
    assert (forall m | 0 <= m < n + 1 :: oks[m]) <==> (forall m | 0 <= m < n :: oks[m]);
  }

  lemma OnlyFailuresGrow(failed: seq<nat>, oks: seq<bool>, n: nat)
    requires n < |oks| && OnlyFailures(failed, oks, n) && !oks[n]
    ensures OnlyFailures(failed + [n + 1], oks, n + 1)
  {
    var next := failed + [n + 1];
    forall j | 0 <= j < |next| ensures 1 <= next[j] <= n + 1 && !oks[next[j] - 1] {
      if j < |failed| { assert next[j] == failed[j]; }
    }
  }

  lemma AllFailuresGrow(failed: seq<nat>, oks: seq<bool>, n: nat)
    requires n < |oks| && AllFailures(failed, oks, n)
    ensures AllFailures(failed + [n + 1], oks, n + 1)
  {
    var next := failed + [n + 1];
    forall m | 0 <= m < n + 1 && !oks[m] ensures m + 1 in next {
      if m < n {
        var j :| 0 <= j < |failed| && failed[j] == m + 1;
        assert next[j] == m + 1;
      } else {
        assert next[|failed|] == n + 1;
      }
    }
  }

  lemma IncreasingGrow(failed: seq<nat>, oks: seq<bool>, n: nat)
    requires n < |oks| && OnlyFailures(failed, oks, n) && Increasing(failed)
    ensures Increasing(failed + [n + 1])
  {
    var next := failed + [n + 1];
    forall j, k | 0 <= j < k < |next| ensures next[j] < next[k] {
      assert next[j] == failed[j];
      if k < |failed| { assert next[k] == failed[k]; }
    }
  }

  /** The loop of `results.forEach`: the position of each response that is
      not `ok` is pushed in turn. */
  method CollectFailed(oks: seq<bool>) returns (failed: seq<nat>)
    ensures Collected(failed, oks, |oks|)
  {
    failed := [];
    var i := 0;
    while i < |oks|
      invariant 0 <= i <= |oks|
      invariant Collected(failed, oks, i)
    {
      CollectStep(failed, oks, i);
      if !oks[i] {
        failed := failed + [i + 1];
      }
      i := i + 1;
    }
  }

  /** The `results.forEach` of bulk complete and bulk delete, given each
      response's `ok`: the failed positions are collected in order. */
  method AggregateBulk(oks: seq<bool>) returns (r: BulkResult)
    ensures r.AllSucceeded? <==> forall i | 0 <= i < |oks| :: oks[i]
    ensures r.AllSucceeded? ==> r.count == |oks|
    ensures r.SomeFailed? ==> r.failed != []
    ensures r.SomeFailed? ==> forall j | 0 <= j < |r.failed| :: 1 <= r.failed[j] <= |oks| && !oks[r.failed[j] - 1]
    ensures r.SomeFailed? ==> forall i | 0 <= i < |oks| && !oks[i] :: i + 1 in r.failed
    ensures r.SomeFailed? ==> forall j, k | 0 <= j < k < |r.failed| :: r.failed[j] < r.failed[k]
  {
    var failed := CollectFailed(oks);
    if failed == [] {
      r := AllSucceeded(|oks|);
    } else {
      r := SomeFailed(failed);
    }
  }

  /** The body bulk complete sends for every selected task: the status
      only. */
  const BulkCompleteBody: TaskBody := TaskBody(None, None, Some(StatusCompleted), None, None, None)

  /** The response flags of a bulk complete or delete whose requests the
      server answers one after the other, each against the store the ones
      before it left. */
  function BulkOks(store: Store, user: UserId, reqs: seq<TaskRequest>, newId: TaskId, now: int,
                   defaults: ModelDefaults): (oks: seq<bool>)
    requires newId !in store
    requires forall i | 0 <= i < |reqs| :: !reqs[i].PostTask?
    ensures |oks| == |reqs|
    ensures |reqs| > 0 ==> oks[0] == IsOk(Dispatch(store, Some(user), reqs[0], newId, now, defaults).reply)
    decreases |reqs|
  {
    if reqs == [] then []
    else
      var s := Dispatch(store, Some(user), reqs[0], newId, now, defaults);
      [IsOk(s.reply)] + BulkOks(s.store, user, reqs[1..], newId, now, defaults)
  }

  /** The PUT requests of a bulk complete as written. */
  function BulkCompleteRequests(ids: seq<TaskId>): (reqs: seq<TaskRequest>)
    ensures |reqs| == |ids|
    ensures forall i | 0 <= i < |ids| :: reqs[i] == PutTask(ids[i], BulkCompleteBody)
  {
    if ids == [] then [] else [PutTask(ids[0], BulkCompleteBody)] + BulkCompleteRequests(ids[1..])
  }

  /** Bulk complete as written: the status-only body has no title, the
      route's title check answers 400 to every request, so every flag is
      false and nothing in the store changes. */
  lemma {:induction false} BulkCompleteAlwaysRejected(store: Store, user: UserId, ids: seq<TaskId>, newId: TaskId,
                                                      now: int, defaults: ModelDefaults)
    requires newId !in store
    ensures forall i | 0 <= i < |ids| ::
              Dispatch(store, Some(user), PutTask(ids[i], BulkCompleteBody), newId, now, defaults)
              == Step(Invalid([TitleRequired, TitleTooShort]), store)
    ensures forall i | 0 <= i < |ids| :: !BulkOks(store, user, BulkCompleteRequests(ids), newId, now, defaults)[i]
    decreases |ids|
  {
    forall i | 0 <= i < |ids|
      ensures Dispatch(store, Some(user), PutTask(ids[i], BulkCompleteBody), newId, now, defaults)
              == Step(Invalid([TitleRequired, TitleTooShort]), store)
    {
      UpdateWithoutTitleRejected(store, user, ids[i], BulkCompleteBody, newId, now, defaults);
    }
    if ids != [] {
      BulkCompleteAlwaysRejected(store, user, ids[1..], newId, now, defaults);
      var reqs := BulkCompleteRequests(ids);
      assert reqs[1..] == BulkCompleteRequests(ids[1..]);
      var oks := BulkOks(store, user, reqs, newId, now, defaults);
      assert oks == [false] + BulkOks(store, user, BulkCompleteRequests(ids[1..]), newId, now, defaults);
    }
  }

  /** The body completing one task sends: the task's own title, description,
      priority (medium when it has none) and due date, with status completed
      and progress 100. */
  function CompleteBody(t: Task): (b: TaskBody)
    ensures b.title == Some(t.title) && b.description == Some(t.description)
    ensures b.status == Some(StatusCompleted) && b.progress == Some(100)
    ensures b.priority.Some? && (t.priority.Some? && t.priority.value != "" ==> b.priority == t.priority)
    ensures b.dueDate == t.dueDate
  {
    TaskBody(Some(t.title), Some(t.description), Some(StatusCompleted),
             Some(if t.priority.Some? && t.priority.value != "" then t.priority.value else PriorityMedium),
             t.dueDate, Some(100))
  }

  /** Sent for a stored task whose title meets the server's rule, the full
      body is accepted: the task is completed with progress 100 and keeps its
      title, description and due date. */
  lemma CompleteBodyAccepted(store: Store, user: UserId, t: Task, newId: TaskId, now: int,
                             defaults: ModelDefaults)
    requires newId !in store
    requires t.id in store && store[t.id] == t && t.owner == user
    requires |t.title| >= MinTitleLength
    ensures var s := Dispatch(store, Some(user), PutTask(t.id, CompleteBody(t)), newId, now, defaults);
            && s.reply.Updated? && IsOk(s.reply)
            && s.reply.task.status == StatusCompleted && s.reply.task.progress == 100
            && s.reply.task.title == t.title && s.reply.task.description == t.description
            && s.reply.task.dueDate == t.dueDate
            && s.store == store[t.id := s.reply.task]
  {
  }

  // -------------------------------------------------------- single actions

  /** `this.tasks.find(t => t._id === id)`: the first task with that id. */
  function FindTask(tasks: seq<Task>, id: TaskId): (r: Option<Task>)
    ensures r.None? <==> forall t | t in tasks :: t.id != id
    ensures r.Some? ==> r.value in tasks && r.value.id == id
    ensures r.Some? ==> exists i | 0 <= i < |tasks| :: tasks[i] == r.value && forall j | 0 <= j < i :: tasks[j].id != id
  {
    if tasks == [] then None
    else if tasks[0].id == id then Some(tasks[0])
    else
      var r := FindTask(tasks[1..], id);
      assert forall t | t in tasks :: t == tasks[0] || t in tasks[1..];
      if r.Some? then
        assert exists i | 0 <= i < |tasks[1..]| :: tasks[1..][i] == r.value && forall j | 0 <= j < i :: tasks[1..][j].id != id;
        var i :| 0 <= i < |tasks[1..]| && tasks[1..][i] == r.value && forall j | 0 <= j < i :: tasks[1..][j].id != id;
        assert tasks[i + 1] == r.value;
        assert forall j | 0 <= j < i + 1 :: tasks[j].id != id by {
          forall j | 0 <= j < i + 1 ensures tasks[j].id != id {
            if j > 0 { assert tasks[j] == tasks[1..][j - 1]; }
          }
        }
        r
      else r
  }

  /** Completing one task from its card: nothing is sent for a task the
      page does not hold or when the confirmation is declined; otherwise a
      PUT with the full body of the first listed task with that id. */
  function CompleteSingle(tasks: seq<Task>, id: TaskId, confirmed: bool): (r: Option<TaskRequest>)
    ensures r.Some? <==> confirmed && exists t | t in tasks :: t.id == id
    ensures r.Some? ==> r.value == PutTask(id, CompleteBody(FindTask(tasks, id).value))
  {
    match FindTask(tasks, id)
    case None => None
    case Some(t) => if confirmed then Some(PutTask(id, CompleteBody(t))) else None
  }

  /** Deleting one task from its card, under the same two conditions. */
  function DeleteSingle(tasks: seq<Task>, id: TaskId, confirmed: bool): (r: Option<TaskRequest>)
    ensures r.Some? <==> confirmed && exists t | t in tasks :: t.id == id
    ensures r.Some? ==> r.value == DeleteOne(id)
  {
    if FindTask(tasks, id).Some? && confirmed then Some(DeleteOne(id)) else None
  }

  // ----------------------------------------------------------- task form

  /** The task form's raw field values. */
  datatype TaskForm = TaskForm(title: string, description: string, status: string, priority: string,
                               dueDate: string, progress: string)

  /** `handleTaskSubmit` before sending: a title that is blank after
      trimming stops the submit; otherwise every field is sent as typed
      (the title untrimmed), an empty due date is left out, and progress is
      read with `parseInt(…) || 0`.  `parseDate` reads the date input. */
  function SubmitCheck(f: TaskForm, parseDate: string -> Date): (b: Option<TaskBody>)
    ensures b.None? <==> IsBlank(f.title)
    ensures b.Some? ==> b.value.title == Some(f.title) && b.value.description == Some(f.description)
    ensures b.Some? ==> b.value.status == Some(f.status) && b.value.priority == Some(f.priority)
    ensures b.Some? ==> (b.value.dueDate.None? <==> f.dueDate == "")
    ensures b.Some? && f.dueDate != "" ==> b.value.dueDate == Some(parseDate(f.dueDate))
    ensures b.Some? ==> b.value.progress == Some(ParseIntOrZero(f.progress))
  {
    if IsBlank(f.title) then None
    else
      Some(TaskBody(Some(f.title), Some(f.description), Some(f.status), Some(f.priority),
                    if f.dueDate == "" then None else Some(parseDate(f.dueDate)),
                    Some(ParseIntOrZero(f.progress))))
  }

  /** The local check and the server's rule disagree both ways: a
      two-character title passes here and is refused there, a title of
      spaces is refused here and would pass there. */
  lemma ClientAndServerTitleChecksDiffer(f: TaskForm, g: TaskForm, parseDate: string -> Date)
    requires f.title == "ab" && g.title == "   "
    ensures SubmitCheck(f, parseDate).Some? && TitleErrors(SubmitCheck(f, parseDate).value.title) != []
    ensures SubmitCheck(g, parseDate).None? && TitleErrors(Some(g.title)) == []
  {
    assert !IsSpace(f.title[0]);
  }

  /** Editing with the due-date field emptied sends no due date, so the
      stored one stays: an edit cannot clear a due date. */
  lemma EditCannotClearDueDate(store: Store, user: UserId, id: TaskId, f: TaskForm, parseDate: string -> Date)
    requires Owns(store, user, id)
    requires !IsBlank(f.title) && f.dueDate == ""
    ensures var body := SubmitCheck(f, parseDate).value;
            var s := UpdateTask(store, user, id, [], body);
            s.reply.Updated? && s.reply.task.dueDate == store[id].dueDate
  {
  }

  /** The progress a task shows in the form is sent back unchanged. */
  lemma ProgressFieldRoundTrip(f: TaskForm, n: nat, parseDate: string -> Date)
    requires !IsBlank(f.title) && f.progress == NatToString(n)
    ensures SubmitCheck(f, parseDate).value.progress == Some(n)
  {
    ParseNatToString(n);
  }
}
