/** The authentication router: register and login are public, the profile
    sits behind the authentication gate.  Register runs its validation
    chain; login declares one whose result its handler never reads. */
module AuthRoutes {
  import opened Wrappers
  import opened Tasks
  import opened AuthController

  const NameRequired: string := "Name is required"
  const EmailInvalid: string := "Please enter a valid email"
  const PasswordTooShort: string := "Password must be at least 6 characters"
  const PasswordRequired: string := "Password is required"
  const MinPasswordLength: nat := 6

  /** The JSON body of register and login; a missing field reads as the
      empty string, as the validators read it. */
  datatype Credentials = Credentials(name: string, email: string, password: string)

  /** `registerValidation`: name not empty, e-mail well formed, password of
      at least six characters; the e-mail format check is a parameter. */
  function RegisterErrors(body: Credentials, isEmail: string -> bool): (errs: seq<string>)
    ensures errs == [] <==> body.name != "" && isEmail(body.email) && |body.password| >= MinPasswordLength
    ensures NameRequired in errs <==> body.name == ""
    ensures EmailInvalid in errs <==> !isEmail(body.email)
    ensures PasswordTooShort in errs <==> |body.password| < MinPasswordLength
  {
    (if body.name == "" then [NameRequired] else [])
    + (if !isEmail(body.email) then [EmailInvalid] else [])
    + (if |body.password| < MinPasswordLength then [PasswordTooShort] else [])
  }

  /** `loginValidation`: computed by the route, never consulted. */
  function LoginErrors(body: Credentials, isEmail: string -> bool): (errs: seq<string>)
    ensures errs == [] <==> isEmail(body.email) && body.password != ""
  {
    (if !isEmail(body.email) then [EmailInvalid] else [])
    + (if body.password == "" then [PasswordRequired] else [])
  }

  datatype AuthRequest =
    | PostRegister(body: Credentials)
    | PostLogin(body: Credentials)
    | GetProfileRoute

  /** Only the profile route is behind the authentication gate. */
  predicate IsProtected(req: AuthRequest) {
    req.GetProfileRoute?
  }

  /** `POST /register`. */
  function RegisterRoute(users: UserStore, body: Credentials, isEmail: string -> bool, newId: UserId,
                         hash: string -> string, sign: (UserId, string) -> string): (s: AuthStep)
    ensures RegisterErrors(body, isEmail) != [] ==> s == AuthStep(Invalid(RegisterErrors(body, isEmail)), users)
    ensures RegisterErrors(body, isEmail) == [] ==>
              s == Register(users, [], body.name, body.email, body.password, newId, hash, sign)
  {
    Register(users, RegisterErrors(body, isEmail), body.name, body.email, body.password, newId, hash, sign)
  }

  /** `POST /login`: the validation result is dropped on the floor. */
  function LoginRoute(users: UserStore, body: Credentials, isEmail: string -> bool,
                      matches: (User, string) -> bool, sign: (UserId, string) -> string): (r: AuthReply)
    ensures r == Login(users, body.email, body.password, matches, sign)
  {
    var _ := LoginErrors(body, isEmail);
    Login(users, body.email, body.password, matches, sign)
  }

  /** Any request through the router.  `caller` is the user the
      authentication gate resolved, `None` when it refused the token; it is
      consulted for the profile only.  The gate's code is not part of this
      model, so the message of its refusal enters as `gateMessage`. */
  method Handle(users: UserStore, caller: Option<UserId>, gateMessage: string, req: AuthRequest,
                isEmail: string -> bool, newId: UserId, hash: string -> string,
                matches: (User, string) -> bool, sign: (UserId, string) -> string) returns (s: AuthStep)
    ensures IsProtected(req) && caller.None? ==> s == AuthStep(Unauthorized(gateMessage), users)
    ensures req.PostRegister? ==> s == RegisterRoute(users, req.body, isEmail, newId, hash, sign)
    ensures req.PostLogin? ==> s == AuthStep(LoginRoute(users, req.body, isEmail, matches, sign), users)
    ensures req.GetProfileRoute? && caller.Some? ==> s.reply.ProfileData? && s.users == users
  {
    match req {
      case PostRegister(body) =>
        s := RegisterRoute(users, body, isEmail, newId, hash, sign);
      case PostLogin(body) =>
        s := AuthStep(LoginRoute(users, body, isEmail, matches, sign), users);
      case GetProfileRoute =>
        if caller.None? {
          s := AuthStep(Unauthorized(gateMessage), users);
        } else {
          var r := GetProfile(users, caller.value);
          s := AuthStep(r, users);
        }
    }
  }

  /** The login outcome does not depend on what the declared validation
      thinks of the e-mail: with any two format checks it is the same. */
  lemma LoginIgnoresValidation(users: UserStore, body: Credentials, isEmail1: string -> bool,
                               isEmail2: string -> bool, matches: (User, string) -> bool,
                               sign: (UserId, string) -> string)
    ensures LoginRoute(users, body, isEmail1, matches, sign) == LoginRoute(users, body, isEmail2, matches, sign)
  {
  }

  /** A malformed e-mail is not rejected with 400 at login: it is looked up,
      and since registration never stores one, the answer is the ordinary 401. */
  lemma MalformedLoginEmailGets401(users: UserStore, body: Credentials, isEmail: string -> bool,
                                   matches: (User, string) -> bool, sign: (UserId, string) -> string)
    requires !isEmail(body.email)
    requires forall e | e in users :: isEmail(e)
    ensures LoginErrors(body, isEmail) != []
    ensures LoginRoute(users, body, isEmail, matches, sign) == Unauthorized(BadCredentialsMessage)
  {
  }

  /** Every e-mail that registration stores passed the format check, so the
      premise of `MalformedLoginEmailGets401` is kept by the register route. */
  lemma RegisterStoresOnlyWellFormedEmails(users: UserStore, body: Credentials, isEmail: string -> bool,
                                           newId: UserId, hash: string -> string,
                                           sign: (UserId, string) -> string)
    requires forall e | e in users :: isEmail(e)
    ensures forall e | e in RegisterRoute(users, body, isEmail, newId, hash, sign).users :: isEmail(e)
  {
  }
}
