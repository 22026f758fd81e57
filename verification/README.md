# Task tracker — a Dafny model

A model of a small task tracker. The server is an Express application with
two routers:
- the task router, where each user creates, lists, reads, updates and
  deletes their own tasks;
- the authentication router, which handles register, login and profile.

The client is a browser page: a session kept in local storage plus a
dashboard that lists, searches, sorts, counts, completes and deletes tasks,
and shows them on a month calendar.

Everything is modelled as pure functions over immutable values, except a few
loops written as methods:
- the server's stores are maps from task id (or e-mail) to record;
- a request's outcome is a reply together with the store it leaves behind;
- the client's local storage is a map from key to string.

Library calls become function parameters that the model never looks inside:
- password hashing (`hash`) and comparison (`matches`);
- token signing (`sign`);
- the e-mail format check (`isEmail`);
- JSON encoding (`encode` and `decode`);
- date-input parsing (`parseDate`);
- the schema defaults for fields create does not pass on (`ModelDefaults`).

The authentication gate that protects the task routes and the profile route
is not part of this model. Its outcome enters as `caller: Option<UserId>`,
and the body it sends with a refusal enters as `gateBody`.

Modules:
- `Wrappers`, `Text`, `Dates`, `Tasks`: the option type, the JavaScript string
  operations the code uses (`trim`, `includes`, `split`, `toLowerCase`,
  `parseInt`), calendar dates, and the task record.
- `TaskController`, `TaskRoutes`: the task handlers and their router.
- `AuthController`, `AuthRoutes`: the authentication handlers and their router.
- `ClientAuth`: the session in local storage, the page redirect, and the
  login and register forms.
- `ClientViews`: statistics, search, card badges, labels and avatar initials.
- `ClientSort`: the sort menu, as a stable insertion sort over its comparators.
- `ClientCalendar`: month navigation, grouping the month's tasks by day, and
  the day cells.
- `ClientActions`: the request bodies, error-message handling, notices, bulk
  summaries and the task form.

Behaviours of the code worth noting:
- The title check runs in the task router. It guards update as well as
  create, so a PUT without a valid title is refused with 400, even a
  status-only one.
- A missing title collects both messages ("Title is required" and "Title must
  be at least 3 characters").
- Login declares a validation chain whose result it never reads.
- Create stores only the title, description and status of the body. Priority,
  due date and progress take the schema defaults.
- A bulk operation reloads the list only when every request succeeded.
- List filters by status only for the three known statuses.

## Model

| member | source | states |
|---|---|---|
| TaskController.CreateTask | backend/src/controllers/taskController.js:5-36 | a failed validation answers 400 and stores nothing; otherwise exactly one task owned by the requester is added under the new id, an empty description and the `todo` status replace missing or empty ones, and priority, due date and progress come from the schema defaults, not the body |
| TaskController.StatusFilter | backend/src/controllers/taskController.js:41-46 | the status query narrows the list if and only if it is one of `todo`, `in-progress`, `completed` |
| TaskController.ListTasks | backend/src/controllers/taskController.js:39-62 | the listed tasks are exactly the requester's tasks passing the filter, each once and as stored, ordered newest first, and `count` equals the list length |
| TaskController.GetTask | backend/src/controllers/taskController.js:65-82 | the task is returned if and only if it exists and belongs to the requester, otherwise 404 |
| TaskController.ApplyUpdate | backend/src/controllers/taskController.js:116-129 | every field absent from the request keeps its stored value and every present one takes the request's value; a request setting status `completed` without a progress of at least 100 sets progress to exactly 100, one with such a progress keeps it, and id, owner and creation time never change |
| TaskController.UpdateTask | backend/src/controllers/taskController.js:94-135 | validation failure answers 400 before any lookup, a missing or foreign task answers 404 with the store unchanged, and otherwise only the addressed entry is replaced by the merged task |
| TaskController.DeleteTask | backend/src/controllers/taskController.js:191-208 | exactly the one owned task is removed, or 404 with nothing removed; every other entry is untouched |
| TaskController.MutationsPreserveWellFormed | backend/src/controllers/taskController.js:5-208 | create, update and delete keep every task stored under its own id |
| TaskController.ForeignTaskLooksMissing | backend/src/controllers/taskController.js:65-82 | get, update and delete answer a task of another user exactly as if it did not exist |
| TaskController.OtherOwnersUntouched | backend/src/controllers/taskController.js:94-208 | no update or delete by one user changes or removes another user's task |
| TaskController.CreateThenGet | backend/src/controllers/taskController.js:5-82 | fetching a task right after creating it returns the created task |
| TaskController.CreateIgnoresExtraFields | backend/src/controllers/taskController.js:15-22 | the outcome of create does not depend on the body's priority, due date or progress |
| TaskController.EmptyUpdateIsIdentity | backend/src/controllers/taskController.js:116-124 | an update carrying no field leaves the task unchanged |
| TaskController.UpdateIdempotent | backend/src/controllers/taskController.js:116-129 | applying the same update twice equals applying it once |
| TaskController.CompletionRuleReadsRequestOnly | backend/src/controllers/taskController.js:127-129 | the completion rule reads the request's status, so a completed task updated with a lower progress and no status keeps that progress |
| TaskController.ValidationBeforeLookup | backend/src/controllers/taskController.js:96-101 | a failed validation answers 400 whether or not the task exists |
| TaskRoutes.TitleErrors | backend/src/routes/taskRoutes.js:14-18 | no messages if and only if the title is present with at least 3 characters; "required" if and only if it is missing or empty, "too short" if and only if it is missing or shorter than 3, both for a missing title |
| TaskRoutes.ValidationErrors | backend/src/routes/taskRoutes.js:24-28 | only create and update run the title check; get and delete arrive with no messages |
| TaskRoutes.Dispatch | backend/src/routes/taskRoutes.js:21-28 | without a resolved caller every route answers 401 and changes nothing; a failing title on create or update answers 400 with the store unchanged; only create adds keys; a request for an unowned task changes nothing |
| TaskRoutes.ListRoute | backend/src/routes/taskRoutes.js:21-25 | the list route answers 401 without a caller, otherwise exactly the caller's filtered tasks, newest first, with a matching count |
| TaskRoutes.EveryRouteProtected | backend/src/routes/taskRoutes.js:21 | for every request, a refused token gives 401 and leaves the store as it was |
| TaskRoutes.UpdateWithoutTitleRejected | backend/src/routes/taskRoutes.js:27 | an update without a title is refused with both title messages and changes nothing |
| TaskRoutes.TitleRuleBoundary | backend/src/routes/taskRoutes.js:15-17 | a two-character title fails only the length rule, and three spaces pass both rules |
| AuthController.Register | backend/src/controllers/authController.js:13-61 | invalid fields or a taken e-mail answer 400 with the store unchanged; otherwise exactly one user (with the hashed password) is added and the reply carries that user's id, name, e-mail and a token signed for its id with a 30-day expiry |
| AuthController.Login | backend/src/controllers/authController.js:64-103 | the login succeeds if and only if the e-mail is known and the password matches; every failure is the same 401 with the same message; success returns that user's data and a token signed for its id |
| AuthController.GetProfile | backend/src/controllers/authController.js:106-113 | a user is returned if and only if one with the caller's id exists, and it is one of those users without its password |
| AuthController.RegisterPreservesWellFormed | backend/src/controllers/authController.js:27-43 | registration keeps every user stored under its own e-mail |
| AuthController.LoginFailuresIndistinguishable | backend/src/controllers/authController.js:69-84 | an unknown e-mail and a wrong password produce identical replies, both 401 |
| AuthController.RegisterThenLogin | backend/src/controllers/authController.js:36-95 | after a successful registration the same credentials log in as the new user, with the same session data |
| AuthRoutes.RegisterErrors | backend/src/routes/authRoutes.js:8-12 | no messages if and only if the name is non-empty, the e-mail is well formed and the password has at least 6 characters, with one message per failed rule |
| AuthRoutes.LoginErrors | backend/src/routes/authRoutes.js:14-17 | no messages if and only if the e-mail is well formed and the password is non-empty |
| AuthRoutes.RegisterRoute | backend/src/routes/authRoutes.js:20 | failed validation answers 400 with its messages and the store unchanged; otherwise the request is registered |
| AuthRoutes.Handle | backend/src/routes/authRoutes.js:20-22 | register and login are public; the profile needs a resolved caller, otherwise 401; only register changes the store |
| AuthRoutes.LoginIgnoresValidation | backend/src/routes/authRoutes.js:21 | the login outcome is the same under any e-mail format check |
| AuthRoutes.MalformedLoginEmailGets401 | backend/src/routes/authRoutes.js:14-21 | a malformed e-mail fails the login validation yet gets the ordinary 401, when every stored e-mail is well formed |
| AuthRoutes.RegisterStoresOnlyWellFormedEmails | backend/src/routes/authRoutes.js:10 | the register route keeps the invariant that every stored e-mail passes the format check |
| ClientAuth.SetAuthToken | frontend/src/js/auth.js:108-110 | storing the token adds exactly the token key and leaves every other key |
| ClientAuth.GetAuthToken | frontend/src/js/auth.js:112-114 | a token is read if and only if one is stored, and it is the stored value |
| ClientAuth.TokenRoundTrip | frontend/src/js/auth.js:108-114 | the stored token is read back |
| ClientAuth.SetUserData | frontend/src/js/auth.js:116-118 | storing the user adds exactly the user key, holding the encoded record, and leaves every other key |
| ClientAuth.GetUserData | frontend/src/js/auth.js:120-123 | no user if and only if nothing or the empty string is stored; otherwise the decoded value |
| ClientAuth.UserDataRoundTrip | frontend/src/js/auth.js:116-123 | a stored user record is read back, given a decoding that inverts the encoding |
| ClientAuth.HandleLogout | frontend/src/js/auth.js:99-106 | logout removes exactly the token and user keys and leaves every other key as it was; the toast and the redirect to `index.html` one second later are not modelled |
| ClientAuth.LogoutForgetsSession | frontend/src/js/auth.js:99-127 | after logout the page is not authenticated and holds no user |
| ClientAuth.CheckAuthState | frontend/src/js/auth.js:129-140 | the dashboard without a session sends the browser to the index page; the index page or the bare directory with a session sends it to the dashboard; in no case are both asked for |
| ClientAuth.LastSegmentOf | frontend/src/js/auth.js:130 | the page of `dir/page` is `page` when the page has no `/` |
| ClientAuth.RedirectSettles | frontend/src/js/auth.js:129-140 | the page a redirect leads to asks for no further redirect |
| ClientAuth.ReplyMessage | frontend/src/js/auth.js:57 | the form reads the server's message from the 400 and 401 replies, and none from the validation reply |
| ClientAuth.HandleAuthResponse | frontend/src/js/auth.js:49-58 | the form moves to the dashboard if and only if the reply is a success; a success stores the reply's token and user and keeps every other key; a failure leaves storage as it was and shows the reply's message or the form's fallback text |
| ClientAuth.LoginEndToEnd | frontend/src/js/auth.js:32-63 | a successful login leaves the browser authenticated with the token signed for that user, and the index page then redirects to the dashboard; a failed one changes nothing and shows the credentials message |
| ClientAuth.RegisterFailureKeepsStorage | frontend/src/js/auth.js:83-92 | a refused registration leaves storage as it was and shows the duplicate message or the fallback |
| ClientAuth.LogoutThenDashboardRedirects | frontend/src/js/auth.js:99-140 | after logout the dashboard redirects to the index page |
| ClientViews.StatusCountsPartition | frontend/src/js/tasks.js:198-205 | the three status counts plus the tasks of unknown status add up to the list length |
| ClientViews.CalculateStats | frontend/src/js/tasks.js:198-205 | the total is the list length and each counter counts the tasks of its status; the counters add up to the total if and only if no task has an unknown status |
| ClientViews.FilterMatching | frontend/src/js/tasks.js:1611-1615 | the result is an order-preserving subsequence of the list, holding every matching task exactly as often as the list does and nothing else |
| ClientViews.SearchTasks | frontend/src/js/tasks.js:1605-1618 | a blank query shows the whole list; otherwise exactly the tasks whose lower-cased title or description contains the lower-cased query, in list order |
| ClientViews.SearchIgnoresQueryCase | frontend/src/js/tasks.js:1611 | a query and its lower-cased form find the same tasks |
| ClientViews.CardUrgency | frontend/src/js/tasks.js:283-305 | no badge without a due date; overdue if and only if fewer than 0 days are left, today at 0, tomorrow at 1, "n days" from 2 to 7, no badge beyond |
| ClientViews.UrgencyMonotone | frontend/src/js/tasks.js:293-305 | fewer days left never gives a less pressing badge |
| ClientViews.ModalUrgency | frontend/src/js/tasks.js:1299-1306 | the dialog notes overdue if and only if fewer than 0 days are left, due today at 0, "due in n days" from 1 to 3, and nothing beyond; without a due date the note reads "due in null days" |
| ClientViews.ModalAndCardUrgency | frontend/src/js/tasks.js:1299-1306 | the dialog and the card agree on overdue and today; a dialog note implies a card badge, and from 4 to 7 days only the card shows one |
| ClientViews.CardDescription | frontend/src/js/tasks.js:308-312 | an empty description shows the placeholder, one of at most 150 characters shows unchanged, and a longer one shows its first 150 characters followed by "..." |
| ClientViews.CardDescriptionIdempotent | frontend/src/js/tasks.js:308-312 | shortening a shortened description changes nothing |
| ClientViews.StatusText | frontend/src/js/tasks.js:380-387 | each known status has its label, and any other status shows as is |
| ClientViews.PriorityText | frontend/src/js/tasks.js:389-396 | each known priority has its label, and any other priority shows as is |
| ClientViews.CardPriority | frontend/src/js/tasks.js:262 | a missing or empty priority shows as medium, any other as is |
| ClientViews.StatusTextInjective | frontend/src/js/tasks.js:380-387 | distinct known statuses have distinct labels, and no label is itself a status |
| ClientViews.FirstCharsOfSplit | frontend/src/js/tasks.js:1638-1639 | the first characters of the non-empty pieces of `split(' ')` are exactly the characters that start a word when the name is scanned |
| ClientViews.Initials | frontend/src/js/tasks.js:1638-1642 | at most two characters: the upper-cased starts of the first two words |
| ClientViews.AvatarInitials | frontend/src/js/tasks.js:1636-1642 | initials are shown if and only if the name is neither empty nor the loading text |
| ClientViews.InitialsTwoWords | frontend/src/js/tasks.js:1638-1642 | "ab cd" gives "AC": the upper-cased first letters of both words |
| ClientViews.InitialsSkipSpaces | frontend/src/js/tasks.js:1638-1642 | " x  y z" gives "XY": runs of spaces only separate words, and the third word is cut off |
| ClientSort.ParseSortKey | frontend/src/js/tasks.js:1568-1588 | a menu value names a key only if it is that key's value, and an unrecognised value names none |
| ClientSort.ParseKeyName | frontend/src/js/tasks.js:1568-1588 | every key is recognised from its own menu value |
| ClientSort.SelectedSort | frontend/src/js/tasks.js:248 | a missing or empty menu value sorts newest first |
| ClientSort.LexCmp | frontend/src/js/tasks.js:1574 | the title comparison is 0 if and only if the titles are equal |
| ClientSort.LexCmpAntisymmetric | frontend/src/js/tasks.js:1574 | swapping the titles flips the sign of the comparison |
| ClientSort.LexCmpTransitive | frontend/src/js/tasks.js:1574 | the title comparison is transitive |
| ClientSort.PriorityRank | frontend/src/js/tasks.js:1576-1579 | the rank is 1 if and only if the priority is high, 3 if and only if it is low, and 2 for everything else |
| ClientSort.CmpFlip | frontend/src/js/tasks.js:1569-1586 | every comparator flips sign when its arguments are swapped |
| ClientSort.CmpTransitive | frontend/src/js/tasks.js:1569-1586 | every comparator is a total preorder: transitive, and strict when either step is strict |
| ClientSort.SortBySorted | frontend/src/js/tasks.js:1569-1586 | the sort output is ordered under the comparator |
| ClientSort.SortByStable | frontend/src/js/tasks.js:1569-1586 | the sort is stable: the tasks the comparator calls equal keep their input order |
| ClientSort.SortTasks | frontend/src/js/tasks.js:1565-1590 | the result is a permutation of the input; an unknown menu value returns the input unchanged; a known one returns it sorted and stable under that entry's comparator |
| ClientSort.NewestFirstSort | frontend/src/js/tasks.js:1569-1570 | under `date-desc`, creation times never increase along the list |
| ClientSort.PrioritySort | frontend/src/js/tasks.js:1575-1579 | under `priority`, ranks never decrease and the tasks of each rank keep their order |
| ClientSort.DueDateSort | frontend/src/js/tasks.js:1580-1586 | under `due-date`, every dated task precedes every undated one, the dated tasks are chronological, and the undated tasks keep their order |
| ClientCalendar.PrevMonth | frontend/src/js/tasks.js:1229-1237 | the month index drops by one, the result is a valid month, and January goes to December of the year before |
| ClientCalendar.NextMonth | frontend/src/js/tasks.js:1239-1247 | the month index rises by one, the result is a valid month, and December goes to January of the year after |
| ClientCalendar.PrevNextInverse | frontend/src/js/tasks.js:1229-1247 | previous and next month undo each other |
| ClientCalendar.MonthIndexInjective | frontend/src/js/tasks.js:1229-1247 | a valid view is determined by its month index |
| ClientCalendar.GoToToday | frontend/src/js/tasks.js:1249-1254 | the view shows today's month and year |
| ClientCalendar.MonthTasks | frontend/src/js/tasks.js:782-788 | exactly the tasks due in the displayed month and year |
| ClientCalendar.DayBucketOfMonth | frontend/src/js/tasks.js:782-800 | filtering by month first loses no task of any day |
| ClientCalendar.PushByDay | frontend/src/js/tasks.js:790-800 | pushing each task of the month onto its day yields the day table: a day has an entry if and only if some task is due that day, holding those tasks in order |
| ClientCalendar.GroupByDay | frontend/src/js/tasks.js:790-800 | a day has an entry if and only if some task is due that day, and the entry is that day's tasks in list order |
| ClientCalendar.MakeCell | frontend/src/js/tasks.js:816-881 | the preview holds the first min(2, n) tasks and "+more" counts the rest; the badge appears if and only if there are at least two tasks and shows their number; the tooltip lists every title; each status dot shows if and only if a task of that status is present |
| ClientCalendar.RenderMonth | frontend/src/js/tasks.js:764-893 | one cell per day of the displayed month, and the cell of each day shows exactly that day's tasks in list order |
| ClientActions.ReplyBody | backend/src/controllers/taskController.js:96-113 | a 400 body carries the validation messages and no message; a 404 body carries "Task not found" |
| ClientActions.ThrownMessage | frontend/src/js/tasks.js:152-155 | the thrown text is the body's message when it is non-empty, otherwise "Server error: " followed by the status |
| ClientActions.ThrownMessageShowsStatus | frontend/src/js/tasks.js:152-155 | when the body carries no message, the thrown text contains the status code |
| ClientActions.CompleteThrownMessage | frontend/src/js/tasks.js:506-510 | the thrown text is the message, else the first validation message, else the status text |
| ClientActions.LoadFailure | frontend/src/js/tasks.js:180-189 | the session is expired if and only if the text names 401 or a token; a network notice if and only if it names a network error and neither of those; otherwise the text, or a fallback when it is empty |
| ClientActions.CompleteFailure | frontend/src/js/tasks.js:524-537 | each notice appears if and only if its text appears and none tested before it does, in the code's order: "Title is required", "must be at least", "400", "404", "Network error"; otherwise the message itself (or the fallback text when empty); only the 404 notice reloads, and the session is never expired here |
| ClientActions.DeleteFailure | frontend/src/js/tasks.js:606-611 | as written: "task gone" (and reload) if and only if the text contains "404"; every other failure is reported as a network error |
| ClientActions.DeleteFailureByStatus | frontend/src/js/tasks.js:606-611 | corrected: "task gone" if and only if the status is 404 |
| ClientActions.NotFoundMessageHasNo404 | backend/src/controllers/taskController.js:199-202 | the server's 404 message does not contain "404" |
| ClientActions.DeleteOfMissingTaskMisreported | frontend/src/js/tasks.js:589-611 | deleting a missing task: the server answers 404 with "Task not found", and the page reports a network error and does not reload |
| ClientActions.DeleteOfMissingTaskRecognised | frontend/src/js/tasks.js:606-611 | with the corrected handler the same request is reported as a task that is gone, and the list reloads |
| ClientActions.CompleteTitleErrorsRecognised | frontend/src/js/tasks.js:506-527 | when completing a task whose title fails the server's rule, the page shows the matching title notice: "required" for a missing or empty title, "too short" otherwise |
| ClientActions.LoadUnauthorizedExpiresSession | frontend/src/js/tasks.js:152-182 | a 401 whose body has no message is read as an expired session |
| ClientActions.CollectFailed | frontend/src/js/tasks.js:703-708 | after the loop the collected list holds, in increasing order, exactly the 1-based positions of the responses that are not ok, and is empty exactly when none failed |
| ClientActions.AggregateBulk | frontend/src/js/tasks.js:704-716 | all succeeded if and only if every response is ok; otherwise the failed positions are exactly the 1-based positions of the failures, in increasing order |
| ClientActions.BulkOks | frontend/src/js/tasks.js:690-704 | one response flag per request, the first one being the server's answer to the first request |
| ClientActions.BulkCompleteRequests | frontend/src/js/tasks.js:690-699 | one PUT per selected id, each carrying the status-only body |
| ClientActions.BulkCompleteAlwaysRejected | frontend/src/js/tasks.js:697 | every bulk-complete request is refused with the two title messages, leaving the store unchanged, and every response flag is false |
| ClientActions.CompleteBody | frontend/src/js/tasks.js:494-502 | the body resends the task's title, description and due date, with status completed, progress 100, and the priority (or medium) |
| ClientActions.CompleteBodyAccepted | frontend/src/js/tasks.js:494-502 | for an owned task with a valid title, the full body is accepted: the task is completed at progress 100 and keeps its title, description and due date, and only that entry changes |
| ClientActions.FindTask | frontend/src/js/tasks.js:441 | nothing if and only if no task has that id; otherwise the first task with that id |
| ClientActions.CompleteSingle | frontend/src/js/tasks.js:439-457 | a request is sent if and only if the task is listed and the user confirms, and it is a PUT of the first matching task's full body |
| ClientActions.DeleteSingle | frontend/src/js/tasks.js:459-477 | a DELETE is sent if and only if the task is listed and the user confirms |
| ClientActions.SubmitCheck | frontend/src/js/tasks.js:1445-1458 | the submit stops if and only if the title is blank; otherwise every field is sent as typed, an empty due date is left out, and progress is read with `parseInt` or 0 |
| ClientActions.ClientAndServerTitleChecksDiffer | frontend/src/js/tasks.js:1455-1458 | the client's check and the server's rule disagree in both directions: "ab" passes locally and is refused by the server, while three spaces are refused locally and would pass the server |
| ClientActions.EditCannotClearDueDate | frontend/src/js/tasks.js:1450 | editing with the due-date field emptied leaves the stored due date in place |
| ClientActions.ProgressFieldRoundTrip | frontend/src/js/tasks.js:1451 | the progress shown in the form is sent back unchanged |
| Text.JoinSplit | frontend/src/js/tasks.js:1638 | joining the pieces of `split` on the same separator gives the string back |
| Text.LastSegment | frontend/src/js/auth.js:130 | `split(sep).pop()` is the longest suffix without the separator |
| Text.ParseNatToString | frontend/src/js/tasks.js:1451 | `parseInt` reads back the decimal rendering of a natural number |
| Dates.DaysInMonth | frontend/src/js/tasks.js:778 | a month has 28 to 31 days, and exactly 29 only for February of a leap year |
| Dates.CompareTransitive | frontend/src/js/tasks.js:1585 | chronological order of due dates is transitive |

## Left out

- The server entry point, database connection and error middleware: they
  are plumbing and carry no logic of the core.
- The authentication gate's code:
  - the caller it resolves enters as `caller`, and the body of its refusal
    as `gateBody` on the task routes and as its message `gateMessage` on the
    profile route;
  - token verification is not part of this model.
- Mongoose:
  - ids enter as parameters; a malformed id (a cast error, answered with 500)
    is not modelled;
  - the schema defaults are the `ModelDefaults` parameter;
  - JSON `null` field values are not distinguished from absent ones.
- bcrypt, jsonwebtoken and the e-mail validator: each is an uninterpreted
  function parameter.
- The catch-all 500 replies of every handler: a thrown database error has
  no counterpart in a pure store.
- The DOM:
  - toasts, modals, loading overlays, the debounce of the search box, the
    progress bar's width, the avatar colour and the confirmation dialog (its
    answer is a parameter);
  - the list of tasks the day dialog shows.
- `fetch`, `Promise.all` and timers: a response is the server model's reply,
  or a given sequence of `ok` flags for a bulk operation.
- Failures of the network itself and the delayed `logout` after an expired
  session.
- Time and dates:
  - the current time, time zones and `Math.ceil` of millisecond differences,
    so days-left is an input;
  - the calendar's weekday offset of the first cell;
  - the click handler's ISO-prefix matching;
  - date-input parsing, which is the `parseDate` parameter.
- Code that is commented out, and sort code that is never called.
- JavaScript quirks:
  - `parseInt` of a `0x` or `0X` prefix, which it reads as hexadecimal: the
    model reads the leading `0` and stops;
  - `parseInt` of more than 2^53 worth of digits, which JavaScript rounds to
    a double: the model keeps the exact integer;
  - Unicode case folding: ASCII letters only;
  - UTF-16: a string is a sequence of code points, whereas `.length` and
    `substring` count UTF-16 code units, so a character outside the Basic
    Multilingual Plane counts once here and twice in the page;
  - the logout toast and the timer that moves to `index.html` after one
    second.
- ClientViews.CardDescription: cuts at 150 code points, not 150 UTF-16 code
  units; a description with characters outside the Basic Multilingual Plane
  is cut later than the page cuts it.
- TaskRoutes.TitleErrors: counts every character of the title, whereas the
  validator's `isLength` does not count the variation selectors U+FE0E and
  U+FE0F, so a title such as "ab" followed by U+FE0F passes here and is too
  short for the server.
- AuthRoutes.RegisterErrors: counts every character of the password, whereas
  `isLength` does not count the variation selectors U+FE0E and U+FE0F.
- Dates.DaysInMonth: uses the proleptic Gregorian calendar for every year,
  whereas `new Date(y, m + 1, 0)` reads the years 0 to 99 as 1900 to 1999, so
  February of year 0 has 29 days here and 28 in the page.
- ClientSort.LexCmp: compares character codes rather than `localeCompare`'s
  locale collation. Only its total-order properties are used.
- ClientViews.StatusText: inherited object keys such as `constructor` would
  be looked up by the original label maps; the model treats them as unknown.
  The same holds for ClientViews.PriorityText and ClientSort.PriorityRank.
- AuthController.GetProfile: with several users sharing an id, the reply
  names one of them without saying which.
- ClientActions.BulkOks: the requests are answered one after the other,
  whereas the page sends them concurrently. Its contract states only the
  first flag; `BulkCompleteAlwaysRejected` states every flag for bulk
  complete.
- AuthRoutes.Handle: states only that a profile request with a caller gets a
  profile reply; its content is `GetProfile`'s contract.
- TaskController.CreateTask: requires a title once validation has passed,
  which the title check guarantees; the schema's own required-title check is
  not modelled separately.

## Findings

| source | as written | input that shows it | evidently intended | confidence | as-written member | corrected member |
|---|---|---|---|---|---|---|
| frontend/src/js/tasks.js:697 | bulk complete sends `{ status: 'completed' }` alone, but the task router runs the title check on every update | any selection of tasks: each PUT is answered 400 with "Title is required", "Title must be at least 3 characters" | send the task's title (and other fields) along, as completing a single task does | not executed | ClientActions.BulkCompleteAlwaysRejected | ClientActions.CompleteBodyAccepted |
| frontend/src/js/tasks.js:606-611 | the delete handler recognises a missing task by looking for "404" in the error text, but the server's 404 body says "Task not found", which becomes the text | deleting a task that another tab already deleted: 404 with message "Task not found", shown as a network error, and the list is not reloaded | decide by the response status (404), as the notice text intends | not executed | ClientActions.DeleteOfMissingTaskMisreported | ClientActions.DeleteOfMissingTaskRecognised |
