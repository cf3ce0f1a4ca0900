/**
 * The two user serializers: registration (field checks, then the name check,
 * then creation with a hashed password) and the partial profile update
 * (field checks, the matching-passwords check, then the password change and
 * the remaining fields).
 *
 * A serializer first runs every field's own checks and collects their errors;
 * only when no field failed does it run its cross-field `validate`.
 *
 * Every text field trims surrounding whitespace before anything else looks at
 * it: the blank test, the validators, the cross-field check and the stored
 * value all see the stripped text.
 */
module UserSerializers {
  import opened Results
  import opened Api
  import opened Accounts
  import opened UserValidations
  import opened Chars

  /** The framework's uniqueness message for the user table's email column. */
  const UniqueEmailMessage := "user with this email already exists."

  const PasswordsDoNotMatchMessage := "The new passwords do not match."
  const OldPasswordIncorrectMessage := "The old password is incorrect."

  /** A text field's value as the framework hands it on: surrounding whitespace removed. */
  function Trimmed(v: Option<string>): Option<string> {
    match v
    case None => None
    case Some(t) => Some(Strip(t))
  }

  /** The errors of the failed field checks, in field order. */
  function Collect<T>(checks: seq<(string, Result<T, string>)>): (errors: seq<FieldError>)
    ensures errors == [] <==> forall i | 0 <= i < |checks| :: checks[i].1.Ok?
    ensures forall i | 0 <= i < |checks| && checks[i].1.Err? ::
      FieldError(checks[i].0, checks[i].1.error) in errors
  {
    if |checks| == 0 then []
    else
      var rest := Collect(checks[1..]);
      assert forall i | 1 <= i < |checks| :: checks[i] == checks[1..][i - 1];
      if checks[0].1.Err? then [FieldError(checks[0].0, checks[0].1.error)] + rest else rest
  }

  /** Every collected error is the error of a failed check, under that check's field name. */
  lemma {:induction false} CollectOnlyFailures<T>(checks: seq<(string, Result<T, string>)>)
    ensures forall e | e in Collect(checks) :: exists i | 0 <= i < |checks| ::
      checks[i].1.Err? && e == FieldError(checks[i].0, checks[i].1.error)
  {
    if |checks| > 0 {
      CollectOnlyFailures(checks[1..]);
      assert forall i | 1 <= i < |checks| :: checks[i] == checks[1..][i - 1];
    }
  }

  // ---------------------------------------------------------------------------
  // Registration
  // ---------------------------------------------------------------------------

  /** A registration request body; any field may be missing. */
  datatype RegistrationInput = RegistrationInput(
    firstName: Option<string>,
    lastName: Option<string>,
    email: Option<string>,
    password: Option<string>)

  /** Registration data that passed validation. */
  datatype NewAccount = NewAccount(firstName: string, lastName: string, email: string, password: string)

  /**
   * The `email` field: required, not blank once stripped, the stripped text
   * not already in the table, then the email rule on the stripped text.
   */
  function RegistrationEmailField(s: Store, email: Option<string>): (r: Result<string, string>)
    ensures r.Ok? <==> (email.Some? && Strip(email.value) != "" && !EmailTaken(s, Strip(email.value)) &&
                        ValidateEmail(Strip(email.value)).Ok?)
    ensures r.Ok? ==> r.value == Strip(email.value)
    ensures email.None? ==> r == Err(RequiredMessage)
    ensures email.Some? && IsBlank(email.value) ==> r == Err(BlankMessage)
    ensures email.Some? && Strip(email.value) != "" && EmailTaken(s, Strip(email.value)) ==>
      r == Err(UniqueEmailMessage)
  {
    match email
    case None => Err(RequiredMessage)
    case Some(raw) =>
      StripBlank(raw);
      var e := Strip(raw);
      if e == "" then Err(BlankMessage)
      else if EmailTaken(s, e) then Err(UniqueEmailMessage)
      else
        match ValidateEmail(e)
        case Ok(v) => Ok(v)
        case Err(err) => Err(err.Message())
  }

  /** The `password` field: required, not blank once stripped, then the strength rule on the stripped text. */
  function RegistrationPasswordField(password: Option<string>): (r: Result<string, string>)
    ensures r.Ok? <==> password.Some? && IsStrong(Strip(password.value))
    ensures r.Ok? ==> r.value == Strip(password.value)
    ensures password.None? ==> r == Err(RequiredMessage)
    ensures password.Some? && IsBlank(password.value) ==> r == Err(BlankMessage)
    ensures password.Some? && 0 < |Strip(password.value)| < MinPasswordLength ==>
      r == Err(WeakPassword(MinLength).Message())
  {
    match password
    case None => Err(RequiredMessage)
    case Some(raw) =>
      StripBlank(raw);
      var p := Strip(raw);
      if p == "" then Err(BlankMessage)
      else
        match ValidatePassword(p)
        case Ok(v) => Ok(v)
        case Err(err) => Err(err.Message())
  }

  /** Everything registration validation demands of a request. */
  predicate RegistrationAcceptable(s: Store, d: RegistrationInput) {
    && d.email.Some? && Strip(d.email.value) != "" && !EmailTaken(s, Strip(d.email.value))
    && ValidateEmail(Strip(d.email.value)).Ok?
    && d.password.Some? && IsStrong(Strip(d.password.value))
    && d.firstName.Some? && d.lastName.Some?
    && ValidateName(Strip(d.firstName.value), Strip(d.lastName.value)).Ok?
  }

  /** The account a request registers: every field stripped. */
  function Account(d: RegistrationInput): NewAccount
    requires d.firstName.Some? && d.lastName.Some? && d.email.Some? && d.password.Some?
  {
    NewAccount(Strip(d.firstName.value), Strip(d.lastName.value), Strip(d.email.value), Strip(d.password.value))
  }

  /** The errors of the registration's field checks, each under its field name. */
  function RegistrationFieldErrors(s: Store, d: RegistrationInput): (errors: seq<FieldError>)
    ensures errors == [] <==> RegistrationEmailField(s, d.email).Ok? && RegistrationPasswordField(d.password).Ok?
    ensures RegistrationEmailField(s, d.email).Err? ==>
      FieldError("email", RegistrationEmailField(s, d.email).error) in errors
    ensures RegistrationPasswordField(d.password).Err? ==>
      FieldError("password", RegistrationPasswordField(d.password).error) in errors
  {
    var checks := [("email", RegistrationEmailField(s, d.email)), ("password", RegistrationPasswordField(d.password))];
    assert checks[0].1 == RegistrationEmailField(s, d.email) && checks[1].1 == RegistrationPasswordField(d.password);
    Collect(checks)
  }

  /**
   * `is_valid()` of the registration serializer. The names may be blank at
   * field level; the name check then sees the stripped names. It indexes the
   * validated data directly, so a request without a first or last name raises
   * a lookup error instead of a validation error.
   */
  function ValidateRegistration(s: Store, d: RegistrationInput): (r: Checked<NewAccount>)
    ensures r.Accepted? <==> RegistrationAcceptable(s, d)
    ensures r.Accepted? ==> r.value == Account(d)
    ensures r.Crashed? <==>
      RegistrationEmailField(s, d.email).Ok? && RegistrationPasswordField(d.password).Ok? &&
      (d.firstName.None? || d.lastName.None?)
    ensures RegistrationEmailField(s, d.email).Err? ==>
      r.Invalid? && FieldError("email", RegistrationEmailField(s, d.email).error) in r.errors
    ensures RegistrationPasswordField(d.password).Err? ==>
      r.Invalid? && FieldError("password", RegistrationPasswordField(d.password).error) in r.errors
    ensures r.Invalid? && RegistrationEmailField(s, d.email).Ok? && RegistrationPasswordField(d.password).Ok? ==>
      r.errors == [FieldError(NonFieldErrors, NamesRequired.Message())]
  {
    var email := RegistrationEmailField(s, d.email);
    var password := RegistrationPasswordField(d.password);
    var errors := RegistrationFieldErrors(s, d);
    if errors != [] then Invalid(errors)
    else
      assert email.Ok? && password.Ok?;
      if d.firstName.None? || d.lastName.None? then Crashed("KeyError")
      else
        match ValidateName(Strip(d.firstName.value), Strip(d.lastName.value))
        case Err(e) => Invalid([FieldError(NonFieldErrors, e.Message())])
        case Ok(_) => Accepted(NewAccount(Strip(d.firstName.value), Strip(d.lastName.value), email.value, password.value))
  }

  /**
   * `create`: the plaintext password is taken out of the data and only its
   * hash is stored.
   */
  function CreateUser(a: NewAccount, h: Hasher, id: UserId, now: nat, today: nat): (u: User)
    ensures u.userId == id && u.createdAt == now && u.updatedAt == today
    ensures u.firstName == a.firstName && u.lastName == a.lastName && u.email == a.email
    ensures u.credential == h.make(a.password)
  {
    User(id, a.firstName, a.lastName, a.email, h.make(a.password), now, today)
  }

  datatype RegistrationOutcome =
    | Registered(user: User, store: Store)
    | RegistrationRejected(errors: seq<FieldError>)
    | RegistrationFailed(cause: string)

  /**
   * `is_valid()` then `save()`: a new row keyed by the fresh `id`, stamped with
   * the current instant and day. Only a registration that passes validation
   * and is accepted by the table changes it.
   */
  function Register(s: Store, d: RegistrationInput, h: Hasher, id: UserId, now: nat, today: nat): (r: RegistrationOutcome)
    ensures r.Registered? <==> RegistrationAcceptable(s, d) && id !in s
    ensures r.Registered? ==>
      && r.user == CreateUser(Account(d), h, id, now, today)
      && r.store.Keys == s.Keys + {id}
      && r.store[id] == r.user
      && (forall k | k in s :: r.store[k] == s[k])
    ensures r.Registered? && Valid(s) ==> Valid(r.store)
    ensures r.RegistrationRejected? <==> ValidateRegistration(s, d).Invalid?
  {
    match ValidateRegistration(s, d)
    case Invalid(errors) => RegistrationRejected(errors)
    case Crashed(cause) => RegistrationFailed(cause)
    case Accepted(a) =>
      var u := CreateUser(a, h, id, now, today);
      match Insert(s, u)
      case Err(_) => RegistrationFailed("IntegrityError")
      case Ok(s') => Registered(u, s')
  }

  // ---------------------------------------------------------------------------
  // Profile update
  // ---------------------------------------------------------------------------

  /**
   * An update request body. `userId`, `createdAt` and `updatedAt` are read-only
   * fields: the serializer drops them whatever they hold.
   */
  datatype ProfileInput = ProfileInput(
    userId: Option<UserId>,
    createdAt: Option<nat>,
    updatedAt: Option<nat>,
    firstName: Option<string>,
    lastName: Option<string>,
    email: Option<string>,
    oldPassword: Option<string>,
    newPassword: Option<string>,
    confirmNewPassword: Option<string>)

  /** Validated update data: the writable fields that were supplied. */
  datatype ProfileData = ProfileData(
    firstName: Option<string>,
    lastName: Option<string>,
    email: Option<string>,
    oldPassword: Option<string>,
    newPassword: Option<string>,
    confirmNewPassword: Option<string>)

  /** The errors `update` raises after validation has passed. */
  datatype UpdateError = OldPasswordRequired | OldPasswordIncorrect {
    function Message(): string {
      match this
      case OldPasswordRequired => "Old password is required for password update."
      case OldPasswordIncorrect => OldPasswordIncorrectMessage
    }
  }

  /** A supplied email must be non-blank once stripped, and its stripped text must belong to no other row. */
  function UpdateEmailField(s: Store, self: UserId, email: Option<string>): (r: Result<Option<string>, string>)
    ensures r.Ok? <==> email.None? || (Strip(email.value) != "" && !EmailTakenByOther(s, Strip(email.value), self))
    ensures r.Ok? ==> r.value == Trimmed(email)
    ensures email.Some? && IsBlank(email.value) ==> r == Err(BlankMessage)
  {
    match email
    case None => Ok(None)
    case Some(raw) =>
      StripBlank(raw);
      var e := Strip(raw);
      if e == "" then Err(BlankMessage)
      else if EmailTakenByOther(s, e, self) then Err(UniqueEmailMessage)
      else Ok(Some(e))
  }

  /**
   * A supplied old password must be non-blank once stripped, and the stripped
   * text must verify against the user the serializer was given, when it was
   * given one.
   */
  function OldPasswordField(context: Option<User>, h: Hasher, given: Option<string>): (r: Result<Option<string>, string>)
    ensures r.Ok? <==> (given.None? ||
                        (Strip(given.value) != "" &&
                         (context.Some? ==> h.check(context.value.credential, Strip(given.value)))))
    ensures r.Ok? ==> r.value == Trimmed(given)
    ensures given.Some? && IsBlank(given.value) ==> r == Err(BlankMessage)
  {
    match given
    case None => Ok(None)
    case Some(raw) =>
      StripBlank(raw);
      var v := Strip(raw);
      if v == "" then Err(BlankMessage)
      else if context.Some? && !h.check(context.value.credential, v) then Err(OldPasswordIncorrectMessage)
      else Ok(Some(v))
  }

  /** A supplied new password must be non-blank once stripped, and the stripped text strong. */
  function NewPasswordField(pw: Option<string>): (r: Result<Option<string>, string>)
    ensures r.Ok? <==> pw.None? || IsStrong(Strip(pw.value))
    ensures r.Ok? ==> r.value == Trimmed(pw)
    ensures pw.Some? && IsBlank(pw.value) ==> r == Err(BlankMessage)
  {
    match pw
    case None => Ok(None)
    case Some(raw) =>
      StripBlank(raw);
      var v := Strip(raw);
      if v == "" then Err(BlankMessage)
      else
        match ValidatePassword(v)
        case Ok(_) => Ok(Some(v))
        case Err(err) => Err(err.Message())
  }

  /** A supplied confirmation must be non-blank once stripped. */
  function ConfirmField(pw: Option<string>): (r: Result<Option<string>, string>)
    ensures r.Ok? <==> pw.None? || !IsBlank(pw.value)
    ensures r.Ok? ==> r.value == Trimmed(pw)
  {
    match pw
    case None => Ok(None)
    case Some(raw) => StripBlank(raw); if Strip(raw) == "" then Err(BlankMessage) else Ok(Some(Strip(raw)))
  }

  /**
   * The old-password check dereferences the serializer's context user; with
   * none supplied, an old password that is not blank once stripped raises an
   * attribute error.
   */
  predicate OldPasswordCheckCrashes(context: Option<User>, ch: ProfileInput) {
    context.None? && ch.oldPassword.Some? && Strip(ch.oldPassword.value) != ""
  }

  /** The errors of the update's field checks, each under its field name. */
  function ProfileFieldErrors(s: Store, self: UserId, context: Option<User>, h: Hasher, ch: ProfileInput)
    : (errors: seq<FieldError>)
    ensures errors == [] <==>
      && UpdateEmailField(s, self, ch.email).Ok?
      && OldPasswordField(context, h, ch.oldPassword).Ok?
      && NewPasswordField(ch.newPassword).Ok?
      && ConfirmField(ch.confirmNewPassword).Ok?
  {
    var email := UpdateEmailField(s, self, ch.email);
    var oldCheck := OldPasswordField(context, h, ch.oldPassword);
    var newCheck := NewPasswordField(ch.newPassword);
    var confirm := ConfirmField(ch.confirmNewPassword);
    var checks := [("email", email), ("old_password", oldCheck), ("new_password", newCheck), ("confirm_new_password", confirm)];
    assert checks[0].1 == email && checks[1].1 == oldCheck && checks[2].1 == newCheck && checks[3].1 == confirm;
    Collect(checks)
  }

  /**
   * `is_valid()` of the partial update serializer for the row `instance`, with
   * `context` the user the old-password check reads.
   */
  function ValidateProfile(s: Store, instance: User, context: Option<User>, h: Hasher, ch: ProfileInput): (r: Checked<ProfileData>)
    ensures r.Crashed? <==> OldPasswordCheckCrashes(context, ch)
    ensures r.Accepted? <==>
      && !OldPasswordCheckCrashes(context, ch)
      && UpdateEmailField(s, instance.userId, ch.email).Ok?
      && OldPasswordField(context, h, ch.oldPassword).Ok?
      && NewPasswordField(ch.newPassword).Ok?
      && ConfirmField(ch.confirmNewPassword).Ok?
      && Trimmed(ch.newPassword) == Trimmed(ch.confirmNewPassword)
    ensures r.Accepted? ==> r.value == ProfileData(Trimmed(ch.firstName), Trimmed(ch.lastName), Trimmed(ch.email),
      Trimmed(ch.oldPassword), Trimmed(ch.newPassword), Trimmed(ch.confirmNewPassword))
  {
    if OldPasswordCheckCrashes(context, ch) then Crashed("AttributeError")
    else
      var errors := ProfileFieldErrors(s, instance.userId, context, h, ch);
      if errors != [] then Invalid(errors)
      else if Trimmed(ch.newPassword) != Trimmed(ch.confirmNewPassword) then
        Invalid([FieldError(NonFieldErrors, PasswordsDoNotMatchMessage)])
      else
        Accepted(ProfileData(Trimmed(ch.firstName), Trimmed(ch.lastName), Trimmed(ch.email),
                             Trimmed(ch.oldPassword), Trimmed(ch.newPassword), Trimmed(ch.confirmNewPassword)))
  }

  /** The supplied name and email fields, and the save-day stamp. */
  function ApplyFields(u: User, data: ProfileData, today: nat): (v: User)
    ensures v.userId == u.userId && v.createdAt == u.createdAt && v.credential == u.credential
    ensures v.firstName == data.firstName.GetOr(u.firstName)
    ensures v.lastName == data.lastName.GetOr(u.lastName)
    ensures v.email == data.email.GetOr(u.email)
    ensures v.updatedAt == today
  {
    u.(firstName := data.firstName.GetOr(u.firstName),
       lastName := data.lastName.GetOr(u.lastName),
       email := data.email.GetOr(u.email),
       updatedAt := today)
  }

  /**
   * `update`: a supplied new password needs a non-empty old password that
   * verifies; the new password's hash replaces the credential, the password
   * fields are dropped, and the remaining fields are applied.
   */
  function ApplyProfile(instance: User, data: ProfileData, h: Hasher, today: nat): (r: Result<User, UpdateError>)
    ensures data.newPassword.Some? && (data.oldPassword.None? || data.oldPassword.value == "") ==>
      r == Err(OldPasswordRequired)
    ensures (data.newPassword.Some? && data.oldPassword.Some? && data.oldPassword.value != "" &&
             !h.check(instance.credential, data.oldPassword.value)) ==> r == Err(OldPasswordIncorrect)
    ensures r.Ok? ==> (r.value.credential ==
                       if data.newPassword.Some? then h.make(data.newPassword.value) else instance.credential)
    ensures r.Ok? ==> r.value == ApplyFields(instance.(credential := r.value.credential), data, today)
    ensures data.newPassword.None? ==> r.Ok?
  {
    if data.newPassword.Some? then
      if data.oldPassword.None? || data.oldPassword.value == "" then Err(OldPasswordRequired)
      else if !h.check(instance.credential, data.oldPassword.value) then Err(OldPasswordIncorrect)
      else Ok(ApplyFields(instance.(credential := h.make(data.newPassword.value)), data, today))
    else Ok(ApplyFields(instance, data, today))
  }

  datatype UpdateOutcome =
    | Updated(user: User, store: Store)
    | UpdateRejected(errors: seq<FieldError>)
    | UpdateRefused(error: UpdateError)
    | UpdateFailed(cause: string)

  /** `is_valid()` then `save()` on the row `instance`, with `context` as the serializer's user. */
  function UpdateWith(s: Store, instance: User, context: Option<User>, h: Hasher, ch: ProfileInput, today: nat): (r: UpdateOutcome)
    ensures r == UpdateFailed("AttributeError") <==> OldPasswordCheckCrashes(context, ch)
    ensures Trimmed(ch.newPassword) != Trimmed(ch.confirmNewPassword) ==> !r.Updated?
    ensures r.Updated? ==>
      && r.user.userId == instance.userId
      && r.user.createdAt == instance.createdAt
      && r.user.updatedAt == today
      && r.user.firstName == Trimmed(ch.firstName).GetOr(instance.firstName)
      && r.user.lastName == Trimmed(ch.lastName).GetOr(instance.lastName)
      && r.user.email == Trimmed(ch.email).GetOr(instance.email)
      && r.user.credential == (if ch.newPassword.Some? then h.make(Strip(ch.newPassword.value)) else instance.credential)
      && r.store == s[instance.userId := r.user]
    ensures r.Updated? && Valid(s) ==> Valid(r.store)
  {
    match ValidateProfile(s, instance, context, h, ch)
    case Crashed(cause) => UpdateFailed(cause)
    case Invalid(errors) => UpdateRejected(errors)
    case Accepted(data) =>
      match ApplyProfile(instance, data, h, today)
      case Err(e) => UpdateRefused(e)
      case Ok(u) =>
        match Save(s, u)
        case Err(_) => UpdateFailed("IntegrityError")
        case Ok(s') => Updated(u, s')
  }

  /** Everything a successful profile update demands of a request. */
  predicate ProfileAcceptable(s: Store, user: User, h: Hasher, ch: ProfileInput) {
    && (ch.email.None? || (Strip(ch.email.value) != "" && !EmailTakenByOther(s, Strip(ch.email.value), user.userId)))
    && (ch.oldPassword.None? ||
        (Strip(ch.oldPassword.value) != "" && h.check(user.credential, Strip(ch.oldPassword.value))))
    && (ch.newPassword.None? || IsStrong(Strip(ch.newPassword.value)))
    && Trimmed(ch.newPassword) == Trimmed(ch.confirmNewPassword)
    && (ch.newPassword.Some? ==> ch.oldPassword.Some?)
  }

  /** With the user as context, the update succeeds exactly on acceptable requests and keeps the table valid. */
  lemma {:induction false} UpdateWithUserSucceeds(s: Store, user: User, h: Hasher, ch: ProfileInput, today: nat)
    requires Valid(s) && user.userId in s && s[user.userId] == user
    ensures var r := UpdateWith(s, user, Some(user), h, ch, today);
      && (r.Updated? <==> ProfileAcceptable(s, user, h, ch))
      && (r.Updated? ==> r.store == s[user.userId := r.user] && Valid(r.store))
  {
    var v := ValidateProfile(s, user, Some(user), h, ch);
    if v.Accepted? {
      var a := ApplyProfile(user, v.value, h, today);
      if a.Ok? {
        var u := a.value;
        assert u.userId == user.userId;
        assert u.email == Trimmed(ch.email).GetOr(user.email);
        if ch.email.None? {
          assert !EmailTakenByOther(s, user.email, user.userId);
        }
        assert Save(s, u).Ok?;
        assert s[user.userId := u].Keys == s.Keys;
      }
    }
  }

  /**
   * The profile update of the signed-in `user`, with the serializer given that
   * user for its old-password check.
   */
  function UpdateProfile(s: Store, user: User, h: Hasher, ch: ProfileInput, today: nat): (r: UpdateOutcome)
    requires Valid(s) && user.userId in s && s[user.userId] == user
    ensures r.Updated? <==> ProfileAcceptable(s, user, h, ch)
    ensures Trimmed(ch.newPassword) != Trimmed(ch.confirmNewPassword) ==> r.UpdateRejected?
    ensures ch.newPassword.Some? && !IsStrong(Strip(ch.newPassword.value)) ==> r.UpdateRejected?
    ensures ch.oldPassword.Some? && !h.check(user.credential, Strip(ch.oldPassword.value)) ==> r.UpdateRejected?
    ensures ch.newPassword.Some? && ch.oldPassword.None? ==> !r.Updated?
    ensures r.Updated? ==>
      && r.user.userId == user.userId
      && r.user.createdAt == user.createdAt
      && r.user.updatedAt == today
      && r.user.firstName == Trimmed(ch.firstName).GetOr(user.firstName)
      && r.user.lastName == Trimmed(ch.lastName).GetOr(user.lastName)
      && r.user.email == Trimmed(ch.email).GetOr(user.email)
      && r.user.credential == (if ch.newPassword.Some? then h.make(Strip(ch.newPassword.value)) else user.credential)
    ensures r.Updated? ==> r.store == s[user.userId := r.user] && Valid(r.store)
  {
    UpdateWithUserSucceeds(s, user, h, ch, today);
    UpdateWith(s, user, Some(user), h, ch, today)
  }

  /**
   * The update as the detail view runs it: the serializer is built without a
   * context user, so the old-password check has nothing to verify against.
   */
  function UpdateThroughView(s: Store, user: User, h: Hasher, ch: ProfileInput, today: nat): (r: UpdateOutcome)
    ensures OldPasswordCheckCrashes(None, ch) ==> r == UpdateFailed("AttributeError")
    ensures !OldPasswordCheckCrashes(None, ch) ==> r == UpdateWith(s, user, Some(user), h, ch, today)
  {
    UpdateWith(s, user, None, h, ch, today)
  }

  /** The request with only a password change and the given old, new and confirmation values. */
  function PasswordChange(oldPw: string, newPw: string): ProfileInput {
    ProfileInput(None, None, None, None, None, None, Some(oldPw), Some(newPw), Some(newPw))
  }

  /**
   * A well-formed password change (the old password verifies, the new one is
   * strong and confirmed) succeeds when the serializer is given the user, and
   * fails with an attribute error as the detail view runs it.
   */
  lemma PasswordChangeNeedsContextUser(s: Store, user: User, h: Hasher, oldPw: string, newPw: string, today: nat)
    requires Valid(s) && user.userId in s && s[user.userId] == user
    requires Strip(oldPw) != "" && h.check(user.credential, Strip(oldPw))
    requires IsStrong(Strip(newPw))
    ensures UpdateThroughView(s, user, h, PasswordChange(oldPw, newPw), today) == UpdateFailed("AttributeError")
    ensures var r := UpdateProfile(s, user, h, PasswordChange(oldPw, newPw), today);
      r.Updated? && r.user.credential == h.make(Strip(newPw)) && r.store[user.userId] == r.user
  {
  }

  /** Whatever the read-only fields of a request hold, the update is the same. */
  lemma ReadOnlyFieldsIgnored(s: Store, user: User, h: Hasher, ch: ProfileInput, today: nat,
                              id: Option<UserId>, created: Option<nat>, updated: Option<nat>)
    requires Valid(s) && user.userId in s && s[user.userId] == user
    ensures UpdateProfile(s, user, h, ch, today) ==
      UpdateProfile(s, user, h, ch.(userId := id, createdAt := created, updatedAt := updated), today)
  {
  }
}
