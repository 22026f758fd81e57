/** The browser side of the session: the token and the user record kept in
    local storage, the redirect each page load decides, and what the login
    and register forms do with the server's reply.  Local storage is a map
    from keys to strings; JSON encoding of the user record enters as a pair
    of function parameters. */
module ClientAuth {
  import opened Wrappers
  import opened Text
  import opened Tasks
  import opened AuthController

  type Storage = map<string, string>

  const TokenKey: string := "token"
  const UserKey: string := "user"

  /** `setAuthToken`: stores the token and nothing else. */
  function SetAuthToken(st: Storage, token: string): (r: Storage)
    ensures r.Keys == st.Keys + {TokenKey}
    ensures r[TokenKey] == token
    ensures forall k | k in st && k != TokenKey :: r[k] == st[k]
  {
    st[TokenKey := token]
  }

  /** `getAuthToken`: the stored token, `None` for `null`. */
  function GetAuthToken(st: Storage): (t: Option<string>)
    ensures t.Some? <==> TokenKey in st
    ensures t.Some? ==> t.value == st[TokenKey]
  {
    if TokenKey in st then Some(st[TokenKey]) else None
  }

  /** What is stored under a key is read back. */
  lemma TokenRoundTrip(st: Storage, token: string)
    ensures GetAuthToken(SetAuthToken(st, token)) == Some(token)
  {
  }

  /** `setUserData`: stores the encoded user record and nothing else. */
  function SetUserData(st: Storage, user: Session, encode: Session -> string): (r: Storage)
    ensures r.Keys == st.Keys + {UserKey}
    ensures r[UserKey] == encode(user)
    ensures forall k | k in st && k != UserKey :: r[k] == st[k]
  {
    st[UserKey := encode(user)]
  }

  /** `getUserData`: no record when nothing or the empty string is stored,
      otherwise the decoded record. */
  function GetUserData(st: Storage, decode: string -> Session): (u: Option<Session>)
    ensures u.None? <==> UserKey !in st || st[UserKey] == ""
    ensures u.Some? ==> u.value == decode(st[UserKey])
  {
    if UserKey !in st || st[UserKey] == "" then None else Some(decode(st[UserKey]))
  }

  /** A stored record is read back, given an encoding that its decoding
      inverts and that never yields the empty string. */
  lemma UserDataRoundTrip(st: Storage, user: Session, encode: Session -> string, decode: string -> Session)
    requires encode(user) != "" && decode(encode(user)) == user
    ensures GetUserData(SetUserData(st, user, encode), decode) == Some(user)
  {
  }

  /** `isAuthenticated`: a token is stored and it is not empty. */
  predicate IsAuthenticated(st: Storage) {
    GetAuthToken(st).Some? && GetAuthToken(st).value != ""
  }

  /** `handleLogout`: removes the token and the user record, every other
      key stays as it was. */
  function HandleLogout(st: Storage): (r: Storage)
    ensures r.Keys == st.Keys - {TokenKey, UserKey}
    ensures forall k | k in r :: r[k] == st[k]
  {
    st - {TokenKey, UserKey}
  }

  /** After logging out the page is neither authenticated nor holds a user. */
  lemma LogoutForgetsSession(st: Storage, decode: string -> Session)
    ensures !IsAuthenticated(HandleLogout(st))
    ensures GetUserData(HandleLogout(st), decode).None?
  {
  }

  // -------------------------------------------------------------- redirect

  /** Where a page load sends the browser. */
  datatype Redirect = ToIndex | ToDashboard | Stay

  const IndexPage: string := "index.html"
  const DashboardPage: string := "dashboard.html"

  /** `checkAuthState`: the page is the last `/`-separated segment of the
      path; the dashboard without a session goes to the index page, the
      index page (or the bare directory) with a session goes to the
      dashboard, everything else stays.  The two conditions exclude each
      other, so at most one redirect is asked for. */
  function CheckAuthState(path: string, st: Storage): (r: Redirect)
    ensures r == ToIndex <==> LastSegment(path, '/') == DashboardPage && !IsAuthenticated(st)
    ensures r == ToDashboard <==>
              (LastSegment(path, '/') == IndexPage || LastSegment(path, '/') == "") && IsAuthenticated(st)
  {
    var page := LastSegment(path, '/');
    if page == DashboardPage && !IsAuthenticated(st) then ToIndex
    else if (page == IndexPage || page == "") && IsAuthenticated(st) then ToDashboard
    else Stay
  }

  /** The page of a path is the text after its last `/`. */
  lemma {:induction false} LastSegmentOf(dir: string, page: string)
    requires '/' !in page
    ensures LastSegment(dir + "/" + page, '/') == page
  {
    var s := dir + "/" + page;
    var r := LastSegment(s, '/');
    assert s[|dir|] == '/';
    assert forall i | |dir| < i < |s| :: s[i] == page[i - |dir| - 1];
    assert |r| == |page|;
    assert r == s[|s| - |r|..];
    assert page == s[|s| - |page|..];
  }

  /** The page a redirect targets, loaded in the same directory with the
      same storage, asks for no further redirect. */
  lemma RedirectSettles(dir: string, path: string, st: Storage)
    ensures CheckAuthState(path, st) == ToIndex ==> CheckAuthState(dir + "/" + IndexPage, st) == Stay
    ensures CheckAuthState(path, st) == ToDashboard ==> CheckAuthState(dir + "/" + DashboardPage, st) == Stay
  {
    LastSegmentOf(dir, IndexPage);
    LastSegmentOf(dir, DashboardPage);
  }

  // ------------------------------------------------------ form responses

  /** What a login or register submit leaves behind: the storage, the toast
      text, and whether the page moves on to the dashboard. */
  datatype FormOutcome = FormOutcome(storage: Storage, toast: string, toDashboard: bool)

  /** The reply's `success` flag as the form reads it. */
  predicate IsSessionReply(r: AuthReply) {
    r.Registered? || r.LoggedIn?
  }

  /** The reply's `message`, absent for the validation reply, which only
      carries `errors`. */
  function ReplyMessage(r: AuthReply): (m: Option<string>)
    ensures r.Duplicate? || r.Unauthorized? ==> m == Some(r.message)
    ensures r.Invalid? ==> m.None?
  {
    match r
    case Duplicate(msg) => Some(msg)
    case Unauthorized(msg) => Some(msg)
    case _ => None
  }

  /** Which of the two forms was submitted. */
  datatype AuthForm = LoginForm | RegisterForm

  function SuccessText(f: AuthForm): string {
    if f == LoginForm then "Login successful!" else "Registration successful!"
  }

  function FallbackText(f: AuthForm): string {
    if f == LoginForm then "Login failed" else "Registration failed"
  }

  /** `handleLogin` and `handleRegister` once the response is in: on success
      store the token and the user record and go to the dashboard; otherwise
      show the reply's message (or the form's fallback text) and touch
      nothing. */
  function HandleAuthResponse(st: Storage, form: AuthForm, r: AuthReply, encode: Session -> string): (o: FormOutcome)
    ensures o.toDashboard <==> IsSessionReply(r)
    ensures IsSessionReply(r) ==>
              && o.storage.Keys == st.Keys + {TokenKey, UserKey}
              && GetAuthToken(o.storage) == Some(r.data.token)
              && o.storage[UserKey] == encode(r.data)
              && (forall k | k in st && k != TokenKey && k != UserKey :: o.storage[k] == st[k])
              && o.toast == SuccessText(form)
    ensures !IsSessionReply(r) ==> o.storage == st
    ensures !IsSessionReply(r) ==>
              o.toast == if ReplyMessage(r).Some? && ReplyMessage(r).value != "" then ReplyMessage(r).value
                         else FallbackText(form)
  {
    if IsSessionReply(r) then
      FormOutcome(SetUserData(SetAuthToken(st, r.data.token), r.data, encode), SuccessText(form), true)
    else
      var m := ReplyMessage(r);
      FormOutcome(st, if m.Some? && m.value != "" then m.value else FallbackText(form), false)
  }

  /** A successful login against the server model leaves the browser
      authenticated with the token the server signed for that user, and the
      index page then sends it on to the dashboard; a failed one changes
      nothing and shows the server's message. */
  lemma LoginEndToEnd(users: UserStore, email: string, password: string, matches: (User, string) -> bool,
                      sign: (UserId, string) -> string, st: Storage, encode: Session -> string, dir: string)
    requires email in users ==> sign(users[email].id, TokenExpiry) != ""
    ensures var r := Login(users, email, password, matches, sign);
            var o := HandleAuthResponse(st, LoginForm, r, encode);
            && (r.LoggedIn? ==> IsAuthenticated(o.storage)
                                && GetAuthToken(o.storage) == Some(GenerateToken(sign, users[email].id))
                                && CheckAuthState(dir + "/" + IndexPage, o.storage) == ToDashboard)
            && (!r.LoggedIn? ==> o.storage == st && o.toast == BadCredentialsMessage && !o.toDashboard)
  {
    LastSegmentOf(dir, IndexPage);
  }

  /** A refused registration (bad fields or a taken e-mail) leaves the
      browser's storage as it was. */
  lemma RegisterFailureKeepsStorage(users: UserStore, errors: seq<string>, name: string, email: string,
                                    password: string, newId: UserId, hash: string -> string,
                                    sign: (UserId, string) -> string, st: Storage, encode: Session -> string)
    requires errors != [] || email in users
    ensures var r := Register(users, errors, name, email, password, newId, hash, sign).reply;
            var o := HandleAuthResponse(st, RegisterForm, r, encode);
            && o.storage == st && !o.toDashboard
            && o.toast == (if errors != [] then "Registration failed" else DuplicateEmailMessage)
  {
  }

  /** After logout the dashboard sends the browser back to the index page. */
  lemma LogoutThenDashboardRedirects(st: Storage, dir: string)
    ensures CheckAuthState(dir + "/" + DashboardPage, HandleLogout(st)) == ToIndex
  {
    LastSegmentOf(dir, DashboardPage);
  }
}
