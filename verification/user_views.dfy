/**
 * The account HTTP handlers as total functions from the request, the user
 * table and the outcomes of the abstract collaborators (authentication and
 * token issuance) to the response and the new table.
 */
module UserViews {
  import opened Results
  import opened Api
  import opened Accounts
  import opened UserSerializers
  import UserValidations
  import EmailPattern
  import opened Chars

  const CredentialsRequiredMessage := "Email and password are required."
  const InvalidCredentialsMessage := "Invalid email or password."

  /** The `email` and `password` of a login request body; either may be missing. */
  datatype LoginInput = LoginInput(email: Option<string>, password: Option<string>)

  /** What token issuance hands back: a refresh token and an access token. */
  datatype TokenPair = TokenPair(refresh: string, access: string)

  /** The public fields of a user; the credential is never among them. */
  function PublicUser(u: User): (j: Json)
    ensures Keys(j) == ["user_id", "first_name", "last_name", "email"]
    ensures "password" !in Keys(j)
  {
    JObj([
      ("user_id", JStr(u.userId.text)),
      ("first_name", JStr(u.firstName)),
      ("last_name", JStr(u.lastName)),
      ("email", JStr(u.email))])
  }

  /** Both login fields were supplied and are non-empty. */
  predicate HasCredentials(req: LoginInput) {
    req.email.Some? && req.email.value != "" && req.password.Some? && req.password.value != ""
  }

  /** The body of a successful login. */
  function LoginBody(u: User, t: TokenPair): Json {
    JObj([
      ("status", JStr("success")),
      ("message", JStr("Login successful.")),
      ("data", JObj([
        ("refresh", JStr(t.refresh)),
        ("access", JStr(t.access)),
        ("user", PublicUser(u))]))])
  }

  /**
   * Login: missing fields are a validation error before any lookup; an unknown
   * email and a failed authentication give the same 401 answer; otherwise the
   * authenticated user gets a token pair and its public fields.
   * The table is valid, so the lookup by email finds at most one row.
   */
  function Login(s: Store, req: LoginInput, authenticate: (string, string) -> Option<User>,
                 issue: User -> TokenPair): (r: Response)
    requires Valid(s)
    ensures r.status == BadRequest400 <==> !HasCredentials(req)
    ensures !HasCredentials(req) ==> r.body == Envelope("error", CredentialsRequiredMessage)
    ensures r.status == Unauthorized401 <==>
              (HasCredentials(req) &&
               (!EmailTaken(s, req.email.value) || authenticate(req.email.value, req.password.value).None?))
    ensures r.status == Unauthorized401 ==> r.body == Envelope("error", InvalidCredentialsMessage)
    ensures r.status == Ok200 <==>
              (HasCredentials(req) && EmailTaken(s, req.email.value) &&
               authenticate(req.email.value, req.password.value).Some?)
    ensures r.status == Ok200 ==>
      var u := authenticate(req.email.value, req.password.value).value;
      r.body == LoginBody(u, issue(u))
    ensures r.status in {BadRequest400, Unauthorized401, Ok200}
  {
    if !HasCredentials(req) then
      Response(BadRequest400, Envelope("error", CredentialsRequiredMessage))
    else
      var email := req.email.value;
      var password := req.password.value;
      EmailSelectsAtMostOne(s, email);
      if !EmailTaken(s, email) then
        Response(Unauthorized401, Envelope("error", InvalidCredentialsMessage))
      else
        match authenticate(email, password)
        case None => Response(Unauthorized401, Envelope("error", InvalidCredentialsMessage))
        case Some(u) => Response(Ok200, LoginBody(u, issue(u)))
  }

  /**
   * An unknown email and a known email with a wrong password are
   * indistinguishable: the two responses are equal.
   */
  lemma NoAccountExistenceLeak(s1: Store, s2: Store, req: LoginInput,
                               auth1: (string, string) -> Option<User>,
                               auth2: (string, string) -> Option<User>,
                               issue: User -> TokenPair)
    requires Valid(s1) && Valid(s2) && HasCredentials(req)
    requires !EmailTaken(s1, req.email.value)
    requires EmailTaken(s2, req.email.value) && auth2(req.email.value, req.password.value).None?
    ensures Login(s1, req, auth1, issue) == Login(s2, req, auth2, issue)
  {
  }

  /** The body of a successful registration. */
  function RegisteredBody(u: User): Json {
    JObj([
      ("status", JStr("success")),
      ("message", JStr("User registered successfully.")),
      ("data", PublicUser(u))])
  }

  /** The body of a registration that failed validation. */
  function RegistrationErrorsBody(errors: seq<FieldError>): Json {
    JObj([
      ("status", JStr("error")),
      ("message", JStr("Registration failed.")),
      ("errors", ErrorsJson(errors))])
  }

  /**
   * Registration: 201 with the new user's public fields, 400 with the
   * serializer's errors, or 500 with a generic message when anything else
   * raised. Only a 201 changes the table.
   */
  function RegisterView(s: Store, d: RegistrationInput, h: Hasher, id: UserId, now: nat, today: nat): (r: (Response, Store))
    ensures r.0.status == Created201 <==> RegistrationAcceptable(s, d) && id !in s
    ensures r.0.status == Created201 ==>
      && id in r.1
      && r.0.body == RegisteredBody(r.1[id])
      && r.1[id] == CreateUser(Account(d), h, id, now, today)
      && r.1 == s[id := r.1[id]]
    ensures r.0.status == BadRequest400 <==> ValidateRegistration(s, d).Invalid?
    ensures r.0.status == BadRequest400 ==> r.0.body == RegistrationErrorsBody(ValidateRegistration(s, d).errors)
    ensures r.0.status == ServerError500 ==> r.0.body == Envelope("error", "An error occurred during registration.")
    ensures r.0.status in {Created201, BadRequest400, ServerError500}
    ensures r.0.status != Created201 ==> r.1 == s
    ensures Valid(s) ==> Valid(r.1)
  {
    match Register(s, d, h, id, now, today)
    case Registered(u, s') => (Response(Created201, RegisteredBody(u)), s')
    case RegistrationRejected(errors) => (Response(BadRequest400, RegistrationErrorsBody(errors)), s)
    case RegistrationFailed(_) =>
      (Response(ServerError500, Envelope("error", "An error occurred during registration.")), s)
  }

  /**
   * Registering an email that is already in the table, with or without
   * surrounding whitespace, is a 400 and creates no second row.
   */
  lemma DuplicateEmailRejected(s: Store, d: RegistrationInput, h: Hasher, id: UserId, now: nat, today: nat)
    requires d.email.Some? && Strip(d.email.value) != "" && EmailTaken(s, Strip(d.email.value))
    ensures RegisterView(s, d, h, id, now, today).0.status == BadRequest400
    ensures FieldError("email", UniqueEmailMessage) in ValidateRegistration(s, d).errors
    ensures RegisterView(s, d, h, id, now, today).1 == s
  {
  }

  /** A registration request without a first name is answered with the generic 500. */
  lemma MissingFirstNameIsServerError(s: Store, d: RegistrationInput, h: Hasher, id: UserId, now: nat, today: nat)
    requires d.firstName.None?
    requires RegistrationEmailField(s, d.email).Ok? && RegistrationPasswordField(d.password).Ok?
    ensures RegisterView(s, d, h, id, now, today).0 ==
      Response(ServerError500, Envelope("error", "An error occurred during registration."))
    ensures RegisterView(s, d, h, id, now, today).1 == s
  {
  }

  /** Deleting the signed-in user: the row goes and the answer is 200. */
  function DeleteView(s: Store, user: User): (r: (Response, Store))
    ensures r.0 == Response(Ok200, Envelope("success", "User deleted successfully."))
    ensures user.userId !in r.1 && r.1.Keys == s.Keys - {user.userId}
    ensures forall k | k in r.1 :: r.1[k] == s[k]
    ensures Valid(s) ==> Valid(r.1)
  {
    (Response(Ok200, Envelope("success", "User deleted successfully.")), Remove(s, user.userId))
  }

  /**
   * `authenticate` is the email backend over table `s`: it answers with the
   * row holding the email exactly when the password checks against that row.
   */
  ghost predicate AuthenticatesAgainst(authenticate: (string, string) -> Option<User>, s: Store, h: Hasher) {
    forall e, p ::
      authenticate(e, p) == (if exists id | id in s :: s[id].email == e && h.check(s[id].credential, p)
                             then Some(s[UserWith(s, e)]) else None)
  }

  /** The key of a row holding `email`. */
  ghost function UserWith(s: Store, email: string): (id: UserId)
    requires exists id | id in s :: s[id].email == email
    ensures id in s && s[id].email == email
  {
    var id :| id in s && s[id].email == email; id
  }

  /**
   * A registered user can sign in: with a sound hasher and the email backend
   * over the new table, logging in with the registration's email and password
   * answers 200 with that user's public fields and the issued tokens. Login
   * does not strip, so this holds for an email and a password that carry no
   * surrounding whitespace.
   */
  lemma {:induction false} RegisterThenLogin(s: Store, d: RegistrationInput, h: Hasher, id: UserId, now: nat, today: nat,
                                             authenticate: (string, string) -> Option<User>, issue: User -> TokenPair)
    requires Valid(s) && Sound(h)
    requires RegistrationAcceptable(s, d) && id !in s
    requires Strip(d.email.value) == d.email.value && Strip(d.password.value) == d.password.value
    requires AuthenticatesAgainst(authenticate, RegisterView(s, d, h, id, now, today).1, h)
    ensures var (reg, s') := RegisterView(s, d, h, id, now, today);
      && reg.status == Created201
      && Valid(s')
      && var login := Login(s', LoginInput(d.email, d.password), authenticate, issue);
         login.status == Ok200 && login.body == LoginBody(s'[id], issue(s'[id]))
  {
    var (reg, s') := RegisterView(s, d, h, id, now, today);
    assert reg.status == Created201 && Valid(s');
    assert s'[id].email == d.email.value && s'[id].credential == h.make(d.password.value);
    LoginAcceptsStoredPassword(s', id, d.password.value, h, authenticate, issue);
  }

  /**
   * With the email backend over a valid table and a sound hasher, a row's
   * email and the password its credential was made from log in as that row.
   */
  lemma {:induction false} LoginAcceptsStoredPassword(s: Store, id: UserId, pw: string, h: Hasher,
                                                     authenticate: (string, string) -> Option<User>,
                                                     issue: User -> TokenPair)
    requires Valid(s) && Sound(h) && AuthenticatesAgainst(authenticate, s, h)
    requires id in s && s[id].email != "" && s[id].credential == h.make(pw) && pw != ""
    ensures var login := Login(s, LoginInput(Some(s[id].email), Some(pw)), authenticate, issue);
      login.status == Ok200 && login.body == LoginBody(s[id], issue(s[id]))
  {
    var e := s[id].email;
    assert h.check(s[id].credential, pw);
    assert UserWith(s, e) == id;
    assert authenticate(e, pw) == Some(s[id]);
  }

  /**
   * With the email backend over a valid table and a hasher that accepts
   * exactly the password a credential was made from, a row's email logs in
   * with the password its credential was made from, and with no other.
   */
  lemma {:induction false} LoginChecksStoredPassword(s: Store, id: UserId, pw: string, given: string, h: Hasher,
                                                    authenticate: (string, string) -> Option<User>,
                                                    issue: User -> TokenPair)
    requires Valid(s) && Exact(h) && AuthenticatesAgainst(authenticate, s, h)
    requires id in s && s[id].email != "" && s[id].credential == h.make(pw) && given != ""
    ensures Login(s, LoginInput(Some(s[id].email), Some(given)), authenticate, issue).status ==
      (if given == pw then Ok200 else Unauthorized401)
  {
    var e := s[id].email;
    forall k | k in s && s[k].email == e
      ensures h.check(s[k].credential, given) <==> given == pw
    {
      assert k == id;
    }
    assert EmailTaken(s, e);
  }

  /**
   * Registration stores the hash of the stripped password, while login checks
   * the password as sent. With a hasher that accepts exactly the password a
   * credential was made from, a password registered with surrounding
   * whitespace is refused as sent, and only its stripped text logs in.
   */
  lemma {:induction false} PaddedPasswordLocksOut(s: Store, d: RegistrationInput, h: Hasher, id: UserId, now: nat,
                                                 today: nat, authenticate: (string, string) -> Option<User>,
                                                 issue: User -> TokenPair)
    requires Valid(s) && Exact(h)
    requires RegistrationAcceptable(s, d) && id !in s
    requires Strip(d.email.value) == d.email.value && Strip(d.password.value) != d.password.value
    requires AuthenticatesAgainst(authenticate, RegisterView(s, d, h, id, now, today).1, h)
    ensures var (reg, s') := RegisterView(s, d, h, id, now, today);
      && reg.status == Created201
      && Login(s', LoginInput(d.email, d.password), authenticate, issue).status == Unauthorized401
      && Login(s', LoginInput(d.email, Some(Strip(d.password.value))), authenticate, issue).status == Ok200
  {
    var (reg, s') := RegisterView(s, d, h, id, now, today);
    var pw := d.password.value;
    assert reg.status == Created201 && Valid(s');
    assert s'[id].email == d.email.value && s'[id].credential == h.make(Strip(pw));
    assert pw != "";
    LoginChecksStoredPassword(s', id, Strip(pw), pw, h, authenticate, issue);
    LoginChecksStoredPassword(s', id, Strip(pw), Strip(pw), h, authenticate, issue);
  }

  /** A sample registration: Ann Lee, `ann@example.com`, `Passw0rd1`. */
  function AnnLee(): RegistrationInput {
    RegistrationInput(Some("Ann"), Some("Lee"), Some("ann@example.com"), Some("Passw0rd1"))
  }

  lemma AnnLeeEmailIsValid()
    ensures UserValidations.ValidateEmail("ann@example.com").Ok?
  {
    assert EmailPattern.SplitsAt("ann@example.com", 3, 11);
  }

  lemma AnnLeePasswordIsStrong()
    ensures UserValidations.IsStrong("Passw0rd1")
  {
    var pw := "Passw0rd1";
    assert IsDigit(pw[5]) && IsUpper(pw[0]) && IsLower(pw[1]);
  }

  /** None of the sample's fields carries surrounding whitespace. */
  lemma AnnLeeIsStripped()
    ensures Strip("Ann") == "Ann" && Strip("Lee") == "Lee"
    ensures Strip("ann@example.com") == "ann@example.com" && Strip("Passw0rd1") == "Passw0rd1"
  {
    var f, l, e, p := "Ann", "Lee", "ann@example.com", "Passw0rd1";
    assert !IsSpace(f[0]) && !IsSpace(f[|f| - 1]) && !IsSpace(l[0]) && !IsSpace(l[|l| - 1]);
    assert !IsSpace(e[0]) && !IsSpace(e[|e| - 1]) && !IsSpace(p[0]) && !IsSpace(p[|p| - 1]);
    StripFixed(f);
    StripFixed(l);
    StripFixed(e);
    StripFixed(p);
  }

  /** Registering Ann Lee on a table without her email answers 201 with her public fields. */
  lemma AnnLeeRegisters(s: Store, h: Hasher, id: UserId, now: nat, today: nat)
    requires !EmailTaken(s, "ann@example.com") && id !in s
    ensures var (reg, s') := RegisterView(s, AnnLee(), h, id, now, today);
      && reg.status == Created201
      && id in s' && s'[id].email == "ann@example.com"
      && reg.body == RegisteredBody(s'[id])
  {
    AnnLeeEmailIsValid();
    AnnLeePasswordIsStrong();
    AnnLeeIsStripped();
    assert RegistrationAcceptable(s, AnnLee());
  }
}
