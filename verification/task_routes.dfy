/** The task router: every route sits behind the authentication gate, and
    create and update (only those) run the title validation first, whose
    messages the controller then turns into a 400. */
module TaskRoutes {
  import opened Wrappers
  import opened Tasks
  import opened TaskController

  const TitleRequired: string := "Title is required"
  const TitleTooShort: string := "Title must be at least 3 characters"
  const MinTitleLength: nat := 3

  /** `body('title').notEmpty().isLength({ min: 3 })`.  A missing title is
      read as the empty string, and the chain does not stop at the first
      failure, so an empty title collects both messages, in chain order. */
  function TitleErrors(title: Option<string>): (errs: seq<string>)
    ensures errs == [] <==> title.Some? && |title.value| >= MinTitleLength
    ensures TitleRequired in errs <==> title.None? || title.value == ""
    ensures TitleTooShort in errs <==> title.None? || |title.value| < MinTitleLength
    ensures title.None? || title.value == "" ==> errs == [TitleRequired, TitleTooShort]
    ensures title.Some? && 0 < |title.value| < MinTitleLength ==> errs == [TitleTooShort]
  {
    var v := title.GetOr("");
    (if v == "" then [TitleRequired] else []) + (if |v| < MinTitleLength then [TitleTooShort] else [])
  }

  /** The routes that address one task or carry a body. */
  datatype TaskRequest =
    | PostTask(body: TaskBody)
    | GetOne(id: TaskId)
    | PutTask(id: TaskId, body: TaskBody)
    | DeleteOne(id: TaskId)

  /** Whether the route runs `taskValidation` before its handler. */
  predicate IsValidated(req: TaskRequest) {
    req.PostTask? || req.PutTask?
  }

  /** The validation messages a request arrives at its handler with. */
  function ValidationErrors(req: TaskRequest): (errs: seq<string>)
    ensures !IsValidated(req) ==> errs == []
    ensures IsValidated(req) ==> errs == TitleErrors(req.body.title)
  {
    if IsValidated(req) then TitleErrors(req.body.title) else []
  }

  /** One request through the router.  `caller` is the user the
      authentication gate resolved from the bearer token, `None` when it
      refused the token; the gate's own code is not part of this model. */
  function Dispatch(store: Store, caller: Option<UserId>, req: TaskRequest,
                    newId: TaskId, now: int, defaults: ModelDefaults): (s: Step)
    requires newId !in store
    ensures caller.None? ==> s == Step(Unauthorized, store)
    ensures caller.Some? && IsValidated(req) && TitleErrors(req.body.title) != [] ==>
              s == Step(Invalid(TitleErrors(req.body.title)), store)
    ensures !IsValidated(req) ==> !s.reply.Invalid?
    ensures !req.PostTask? ==> forall k | k in s.store :: k in store
    ensures caller.Some? && req.PostTask? && TitleErrors(req.body.title) == [] ==> s.reply.Created?
    ensures caller.Some? && (req.GetOne? || req.PutTask? || req.DeleteOne?) && !Owns(store, caller.value, req.id) ==>
              s.store == store && (s.reply == NotFound || s.reply.Invalid?)
  {
    if caller.None? then Step(Unauthorized, store)
    else
      var user := caller.value;
      var errors := ValidationErrors(req);
      match req
      case PostTask(body) => CreateTask(store, user, errors, body, newId, now, defaults)
      case GetOne(id) => Step(GetTask(store, user, id), store)
      case PutTask(id, body) => UpdateTask(store, user, id, errors, body)
      case DeleteOne(id) => DeleteTask(store, user, id)
  }

  /** `GET /` through the gate. */
  method ListRoute(store: Store, caller: Option<UserId>, query: Option<string>) returns (reply: TaskReply)
    requires WellFormed(store)
    ensures caller.None? ==> reply == Unauthorized
    ensures caller.Some? ==> reply.Listed? && reply.count == |reply.data|
    ensures caller.Some? ==>
              forall k :: k in IdsOf(reply.data) <==> Selected(store, caller.value, StatusFilter(query), k)
    ensures caller.Some? ==> NewestFirst(reply.data) && DistinctIds(reply.data)
  {
    if caller.None? {
      reply := Unauthorized;
    } else {
      reply := ListTasks(store, caller.value, query);
    }
  }

  /** Without a resolved caller nothing is answered but 401 and nothing
      changes, whichever route was asked for. */
  lemma EveryRouteProtected(store: Store, req: TaskRequest, newId: TaskId, now: int, defaults: ModelDefaults)
    requires newId !in store
    ensures Dispatch(store, None, req, newId, now, defaults) == Step(Unauthorized, store)
    ensures Code(Dispatch(store, None, req, newId, now, defaults).reply) == 401
  {
  }

  /** An update that does not resend a valid title is refused with 400 and
      changes nothing, even a status-only or an empty one. */
  lemma UpdateWithoutTitleRejected(store: Store, user: UserId, id: TaskId, body: TaskBody,
                                   newId: TaskId, now: int, defaults: ModelDefaults)
    requires newId !in store
    requires body.title.None?
    ensures Dispatch(store, Some(user), PutTask(id, body), newId, now, defaults)
         == Step(Invalid([TitleRequired, TitleTooShort]), store)
  {
  }

  /** A title of one or two characters passes `notEmpty` but not the length
      rule; a title of three spaces passes both. */
  lemma TitleRuleBoundary()
    ensures TitleErrors(Some("ab")) == [TitleTooShort]
    ensures TitleErrors(Some("   ")) == []
  {
  }
}
