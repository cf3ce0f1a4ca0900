/**
 * The account input validators: email format, password strength and name
 * presence. Each returns its input unchanged on acceptance and otherwise the
 * error it raises, with the error's fixed message.
 */
module UserValidations {
  import opened Results
  import opened Chars
  import EmailPattern

  /** The checks of the password-strength rule, in the order they run. */
  datatype PasswordRule = MinLength | NeedsDigit | NeedsUpper | NeedsLower

  const MinPasswordLength: nat := 8

  const PasswordRules: seq<PasswordRule> := [MinLength, NeedsDigit, NeedsUpper, NeedsLower]

  /** An error raised by one of the validators. */
  datatype RuleError = InvalidEmail | WeakPassword(rule: PasswordRule) | NamesRequired {
    function Message(): string {
      match this
      case InvalidEmail => "Please enter a valid email address."
      case WeakPassword(MinLength) => "Password must be at least 8 characters long."
      case WeakPassword(NeedsDigit) => "Password must contain at least one digit."
      case WeakPassword(NeedsUpper) => "Password must contain at least one uppercase letter."
      case WeakPassword(NeedsLower) => "Password must contain at least one lowercase letter."
      case NamesRequired => "First name and Last name are required."
    }
  }

  // ---------------------------------------------------------------------------
  // Email
  // ---------------------------------------------------------------------------

  /** Accepts exactly the strings the email pattern matches. */
  function ValidateEmail(value: string): (r: Result<string, RuleError>)
    ensures r.Ok? <==> EmailPattern.Matches(value)
    ensures r.Ok? ==> r.value == value
    ensures r.Err? ==> r.error == InvalidEmail
  {
    if EmailPattern.Matches(value) then Ok(value) else Err(InvalidEmail)
  }

  /** An accepted email contains exactly one `@`. */
  lemma AcceptedEmailHasOneAt(value: string)
    requires ValidateEmail(value).Ok?
    ensures exists k | 0 <= k < |value| :: EmailPattern.Occurrences(value, '@') == {k}
  {
    EmailPattern.AcceptedHasOneAt(value);
  }

  /** The domain body admits the upper-case letter `A`. */
  lemma DomainAdmitsCapitalA()
    ensures ValidateEmail("ann@Aexample.com").Ok?
  {
    assert EmailPattern.SplitsAt("ann@Aexample.com", 3, 12);
  }

  /** An address joined from a local part, a domain body and a final label. */
  function Address(local: string, body: string, tld: string): string {
    local + "@" + body + "." + tld
  }

  /**
   * When the local part holds only local characters and the final label only
   * letters, every split of the joined address is the obvious one.
   */
  lemma {:induction false} AddressSplitsOnlyAtJoints(local: string, body: string, tld: string, at: int, dot: int)
    requires All(local, EmailPattern.IsLocalChar)
    requires All(tld, IsLetter)
    requires EmailPattern.SplitsAt(Address(local, body, tld), at, dot)
    ensures at == |local| && dot == |local| + 1 + |body|
  {
    var s := Address(local, body, tld);
    var p := |local| + 1 + |body|;
    assert s[..|local|] == local;
    EmailPattern.AtIsFirst(s, at, dot, |local|);
    assert s[|local|] == '@';
    assert forall m | 0 <= m < at :: EmailPattern.IsLocalChar(s[m]) by {
      forall m | 0 <= m < at ensures EmailPattern.IsLocalChar(s[m]) {
        assert s[..at][m] == s[m];
      }
    }
    assert s[p] == '.';
    assert forall m | dot < m < |s| :: IsLetter(s[m]) by {
      forall m | dot < m < |s| ensures IsLetter(s[m]) {
        assert s[dot + 1..][m - dot - 1] == s[m];
      }
    }
    assert forall m | p < m < |s| :: IsLetter(s[m]) by {
      forall m | p < m < |s| ensures IsLetter(s[m]) {
        assert s[m] == tld[m - p - 1];
      }
    }
  }

  /** The final label admits every ASCII letter, upper case included. */
  lemma {:induction false} LabelAdmitsUpperCase(local: string, body: string, tld: string)
    requires |local| >= 1 && All(local, EmailPattern.IsLocalChar)
    requires |body| >= 1 && All(body, EmailPattern.IsDomainChar)
    requires |tld| >= 2 && All(tld, IsLetter)
    ensures ValidateEmail(Address(local, body, tld)).Ok?
  {
    var s := Address(local, body, tld);
    var at, dot := |local|, |local| + 1 + |body|;
    assert s[..at] == local;
    assert s[at + 1..dot] == body;
    assert s[dot + 1..] == tld;
    assert EmailPattern.SplitsAt(s, at, dot);
  }

  /** `$` also matches before a single final newline. */
  lemma TrailingNewlineAccepted(s: string)
    requires EmailPattern.MatchesBody(s)
    ensures ValidateEmail(s + "\n").Ok?
  {
  }

  /** Any upper-case letter other than `A` in the domain body makes the address invalid. */
  lemma {:induction false} DomainRejectsOtherCapitals(local: string, body: string, tld: string, k: int)
    requires All(local, EmailPattern.IsLocalChar)
    requires All(tld, IsLetter)
    requires 0 <= k < |body| && IsUpper(body[k]) && body[k] != 'A'
    ensures ValidateEmail(Address(local, body, tld)).Err?
  {
    var s := Address(local, body, tld);
    var p := |local| + 1 + |body|;
    forall at, dot | 0 <= at < |s| && 0 <= dot < |s| && EmailPattern.SplitsAt(s, at, dot)
      ensures at == |local| && dot == p
    {
      AddressSplitsOnlyAtJoints(local, body, tld, at, dot);
    }
    assert s[|local| + 1..p][k] == body[k];
    assert !All(s[|local| + 1..p], EmailPattern.IsDomainChar);
    assert s[|s| - 1] != '\n';
  }

  // ---------------------------------------------------------------------------
  // Password
  // ---------------------------------------------------------------------------

  predicate HasDigit(s: string) { Any(s, IsDigit) }

  predicate HasUpper(s: string) { Any(s, IsUpper) }

  predicate HasLower(s: string) { Any(s, IsLower) }

  /** `s` passes the single check `rule`. */
  predicate Satisfies(s: string, rule: PasswordRule) {
    match rule
    case MinLength => |s| >= MinPasswordLength
    case NeedsDigit => HasDigit(s)
    case NeedsUpper => HasUpper(s)
    case NeedsLower => HasLower(s)
  }

  /** A strong password: long enough and holding a digit, an upper-case and a lower-case letter. */
  predicate IsStrong(s: string) {
    |s| >= MinPasswordLength && HasDigit(s) && HasUpper(s) && HasLower(s)
  }

  /**
   * Checks length, then digit, then upper case, then lower case; the first
   * check that fails decides the error.
   */
  function ValidatePassword(value: string): (r: Result<string, RuleError>)
    ensures r.Ok? <==> IsStrong(value)
    ensures r.Ok? ==> r.value == value
    ensures r.Err? ==> r.error.WeakPassword? && !Satisfies(value, r.error.rule)
    ensures |value| < MinPasswordLength ==> r == Err(WeakPassword(MinLength))
  {
    if |value| < MinPasswordLength then Err(WeakPassword(MinLength))
    else if !HasDigit(value) then Err(WeakPassword(NeedsDigit))
    else if !HasUpper(value) then Err(WeakPassword(NeedsUpper))
    else if !HasLower(value) then Err(WeakPassword(NeedsLower))
    else Ok(value)
  }

  /** The first rule of `rules` that `s` violates, if any. */
  function FirstViolated(rules: seq<PasswordRule>, s: string): (r: Option<PasswordRule>)
    ensures r.None? <==> forall i | 0 <= i < |rules| :: Satisfies(s, rules[i])
    ensures r.Some? ==> exists i | 0 <= i < |rules| ::
      rules[i] == r.value && !Satisfies(s, r.value) &&
      forall j | 0 <= j < i :: Satisfies(s, rules[j])
  {
    if |rules| == 0 then None
    else if !Satisfies(s, rules[0]) then Some(rules[0])
    else
      var rest := FirstViolated(rules[1..], s);
      if rest.Some? then
        ghost var i :| 0 <= i < |rules[1..]| && rules[1..][i] == rest.value && !Satisfies(s, rest.value) &&
          forall j | 0 <= j < i :: Satisfies(s, rules[1..][j]);
        assert rules[i + 1] == rest.value;
        rest
      else
        rest
  }

  /** The error of `ValidatePassword` is the first violated rule of the ordered rule list. */
  lemma {:induction false} PasswordErrorIsFirstViolated(value: string)
    ensures match FirstViolated(PasswordRules, value)
      case None => ValidatePassword(value) == Ok(value)
      case Some(rule) => ValidatePassword(value) == Err(WeakPassword(rule))
  {
    var r := FirstViolated(PasswordRules, value);
    if r.Some? {
      var i :| 0 <= i < |PasswordRules| && PasswordRules[i] == r.value && !Satisfies(value, r.value) &&
        forall j | 0 <= j < i :: Satisfies(value, PasswordRules[j]);
      if i == 0 {
      } else if i == 1 {
        assert Satisfies(value, PasswordRules[0]);
      } else if i == 2 {
        assert Satisfies(value, PasswordRules[0]) && Satisfies(value, PasswordRules[1]);
      } else {
        assert Satisfies(value, PasswordRules[0]) && Satisfies(value, PasswordRules[1]);
        assert Satisfies(value, PasswordRules[2]);
      }
    } else {
      assert Satisfies(value, PasswordRules[0]) && Satisfies(value, PasswordRules[1]);
      assert Satisfies(value, PasswordRules[2]) && Satisfies(value, PasswordRules[3]);
    }
  }

  /** `any(ch.isdigit() for ch in value)` and its siblings, as left-to-right scans. */
  method ScanAny(value: string, p: char -> bool) returns (found: bool)
    ensures found <==> Any(value, p)
  {
    found := false;
    var i := 0;
    while i < |value| && !found
      invariant 0 <= i <= |value|
      invariant found <==> exists k | 0 <= k < i :: p(value[k])
    {
      found := p(value[i]);
      i := i + 1;
    }
  }

  /** The password checks as the source runs them, one scan per character class. */
  method CheckPassword(value: string) returns (r: Result<string, RuleError>)
    ensures r == ValidatePassword(value)
    ensures r.Err? ==> Some(r.error.rule) == FirstViolated(PasswordRules, value)
  {
    PasswordErrorIsFirstViolated(value);
    if |value| < MinPasswordLength {
      return Err(WeakPassword(MinLength));
    }
    var digit := ScanAny(value, IsDigit);
    if !digit {
      return Err(WeakPassword(NeedsDigit));
    }
    var upper := ScanAny(value, IsUpper);
    if !upper {
      return Err(WeakPassword(NeedsUpper));
    }
    var lower := ScanAny(value, IsLower);
    if !lower {
      return Err(WeakPassword(NeedsLower));
    }
    return Ok(value);
  }

  // ---------------------------------------------------------------------------
  // Names
  // ---------------------------------------------------------------------------

  /** Both names must be non-empty; on success the validator returns `True`. */
  function ValidateName(firstName: string, lastName: string): (r: Result<bool, RuleError>)
    ensures r.Ok? <==> firstName != "" && lastName != ""
    ensures r.Ok? ==> r.value
    ensures r.Err? ==> r.error == NamesRequired
  {
    if firstName == "" || lastName == "" then Err(NamesRequired) else Ok(true)
  }
}
