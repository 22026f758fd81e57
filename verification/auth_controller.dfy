/** The authentication controller: register, login and profile over a user
    store keyed by e-mail.  Password hashing and comparison and token signing
    belong to libraries outside the model and enter as function parameters. */
module AuthController {
  import opened Wrappers
  import opened Tasks

  /** A stored user; `credential` is what the store keeps for the password. */
  datatype User = User(id: UserId, name: string, email: string, credential: string)

  /** The users collection, keyed by e-mail (lookups are `findOne({ email })`). */
  type UserStore = map<string, User>

  /** Every user is stored under its own e-mail. */
  ghost predicate WellFormedUsers(users: UserStore) {
    forall e | e in users :: users[e].email == e
  }

  /** A user as the profile route shows it: everything but the credential. */
  datatype PublicUser = PublicUser(id: UserId, name: string, email: string)

  /** The `data` object of a successful register or login. */
  datatype Session = Session(id: UserId, name: string, email: string, token: string)

  datatype AuthReply =
    | Registered(data: Session)
    | LoggedIn(data: Session)
    | ProfileData(user: Option<PublicUser>)
    | Invalid(errors: seq<string>)
    | Duplicate(message: string)
    | Unauthorized(message: string)

  function Code(r: AuthReply): int {
    match r
    case Registered(_) => 201
    case LoggedIn(_) => 200
    case ProfileData(_) => 200
    case Invalid(_) => 400
    case Duplicate(_) => 400
    case Unauthorized(_) => 401
  }

  const DuplicateEmailMessage: string := "User already exists with this email"
  const BadCredentialsMessage: string := "Invalid email or password"

  /** The `expiresIn` every token is signed with: thirty days. */
  const TokenExpiry: string := "30d"

  /** `generateToken(id)`: a token signed over the user id with the fixed
      expiry; `sign` stands for the signing library and its secret. */
  function GenerateToken(sign: (UserId, string) -> string, id: UserId): string {
    sign(id, TokenExpiry)
  }

  /** A reply with the user store it leaves behind. */
  datatype AuthStep = AuthStep(reply: AuthReply, users: UserStore)

  /** Register: a failed validation answers 400 with its messages, a taken
      e-mail answers 400 with the duplicate message, and in both cases the
      store is unchanged; otherwise exactly one user is added and the reply
      carries its id, name, e-mail and a token for that id. */
  function Register(users: UserStore, errors: seq<string>, name: string, email: string, password: string,
                    newId: UserId, hash: string -> string, sign: (UserId, string) -> string): (s: AuthStep)
    ensures errors != [] ==> s == AuthStep(Invalid(errors), users)
    ensures errors == [] && email in users ==> s == AuthStep(Duplicate(DuplicateEmailMessage), users)
    ensures errors == [] && email !in users ==>
              && s.reply == Registered(Session(newId, name, email, GenerateToken(sign, newId)))
              && s.users.Keys == users.Keys + {email}
              && s.users[email] == User(newId, name, email, hash(password))
              && (forall e | e in users :: s.users[e] == users[e])
              && |s.users| == |users| + 1
  {
    if errors != [] then AuthStep(Invalid(errors), users)
    else if email in users then AuthStep(Duplicate(DuplicateEmailMessage), users)
    else
      var user := User(newId, name, email, hash(password));
      AuthStep(Registered(Session(user.id, user.name, user.email, GenerateToken(sign, user.id))),
               users[email := user])
  }

  /** Login: an unknown e-mail and a wrong password give the same 401 with
      the same message; a match returns that user's id, name and e-mail with
      a token for that id.  `matches` stands for the password comparison. */
  function Login(users: UserStore, email: string, password: string,
                 matches: (User, string) -> bool, sign: (UserId, string) -> string): (r: AuthReply)
    ensures r.LoggedIn? <==> email in users && matches(users[email], password)
    ensures !r.LoggedIn? ==> r == Unauthorized(BadCredentialsMessage)
    ensures r.LoggedIn? ==>
              var u := users[email];
              r.data == Session(u.id, u.name, u.email, GenerateToken(sign, u.id))
  {
    if email !in users then Unauthorized(BadCredentialsMessage)
    else
      var user := users[email];
      if !matches(user, password) then Unauthorized(BadCredentialsMessage)
      else LoggedIn(Session(user.id, user.name, user.email, GenerateToken(sign, user.id)))
  }

  /** Profile: the caller's user without its credential, or no user at all
      (the reply is still a 200 then).  With several users sharing an id any
      one of them may be returned. */
  method GetProfile(users: UserStore, id: UserId) returns (r: AuthReply)
    ensures r.ProfileData?
    ensures r.user.Some? <==> exists e | e in users :: users[e].id == id
    ensures r.user.Some? ==>
              exists e | e in users :: users[e].id == id && r.user.value == PublicUser(id, users[e].name, users[e].email)
  {
    var unseen := users.Keys;
    while unseen != {}
      invariant unseen <= users.Keys
      invariant forall e | e in users && e !in unseen :: users[e].id != id
      decreases unseen
    {
      var e :| e in unseen;
      if users[e].id == id {
        return ProfileData(Some(PublicUser(id, users[e].name, users[e].email)));
      }
      unseen := unseen - {e};
    }
    r := ProfileData(None);
  }

  /** Registering keeps every user stored under its own e-mail. */
  lemma RegisterPreservesWellFormed(users: UserStore, errors: seq<string>, name: string, email: string,
                                    password: string, newId: UserId, hash: string -> string,
                                    sign: (UserId, string) -> string)
    requires WellFormedUsers(users)
    ensures WellFormedUsers(Register(users, errors, name, email, password, newId, hash, sign).users)
  {
  }

  /** A caller cannot tell an unknown e-mail from a wrong password. */
  lemma LoginFailuresIndistinguishable(users: UserStore, known: string, unknown: string, password: string,
                                       matches: (User, string) -> bool, sign: (UserId, string) -> string)
    requires known in users && !matches(users[known], password)
    requires unknown !in users
    ensures Login(users, known, password, matches, sign) == Login(users, unknown, password, matches, sign)
    ensures Code(Login(users, known, password, matches, sign)) == 401
  {
  }

  /** After a successful register the same credentials log in as the new
      user, given a comparison that accepts the stored hash of the password. */
  lemma RegisterThenLogin(users: UserStore, name: string, email: string, password: string, newId: UserId,
                          hash: string -> string, matches: (User, string) -> bool,
                          sign: (UserId, string) -> string)
    requires email !in users
    requires matches(User(newId, name, email, hash(password)), password)
    ensures var s := Register(users, [], name, email, password, newId, hash, sign);
            Login(s.users, email, password, matches, sign) == LoggedIn(s.reply.data)
  {
  }
}
