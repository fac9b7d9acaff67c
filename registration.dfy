/** The registration form's data, its validation rules, and the two
    normalisations the registration handler applies around them: the redirect
    that reports a failed validation and the optional profile URL. */
module Registration {
  import opened Common
  import opened Text

  datatype RegisterData = RegisterData(name: string, username: string, password: string,
                                       confirmPassword: string, twitterURL: Option<string>)

  /** One failed rule, in the order the rules are declared. */
  datatype ValidationFailure = NameNotAscii | UsernameInvalid | PasswordTooShort | PasswordsDontMatch

  const MinUsernameLength: nat := 3
  const MinPasswordLength: nat := 8

  /** The rules: name is ASCII; username is alphanumeric and at least three
      characters; password at least eight characters; password and confirmation
      equal. */
  predicate IsValid(d: RegisterData) {
    && IsAscii(d.name)
    && IsAlphanumeric(d.username) && |d.username| >= MinUsernameLength
    && |d.password| >= MinPasswordLength
    && d.password == d.confirmPassword
  }

  /** `data.validate()`: every rule is checked and each one that fails is reported,
      once, in declaration order. */
  function Validate(d: RegisterData): (failures: seq<ValidationFailure>)
    ensures |failures| == 0 <==> IsValid(d)
    ensures NameNotAscii in failures <==> !IsAscii(d.name)
    ensures UsernameInvalid in failures <==> !(IsAlphanumeric(d.username) && |d.username| >= MinUsernameLength)
    ensures PasswordTooShort in failures <==> |d.password| < MinPasswordLength
    ensures PasswordsDontMatch in failures <==> d.password != d.confirmPassword
    ensures forall i, j :: 0 <= i < j < |failures| ==> failures[i] != failures[j]
  {
    (if IsAscii(d.name) then [] else [NameNotAscii])
    + (if IsAlphanumeric(d.username) && |d.username| >= MinUsernameLength then [] else [UsernameInvalid])
    + (if |d.password| >= MinPasswordLength then [] else [PasswordTooShort])
    + (if d.password == d.confirmPassword then [] else [PasswordsDontMatch])
  }

  /** Where a failed registration is sent: the percent-encoded reason text as the
      `message` query value, or the fixed "Unknown+error" when there is none. */
  function FailureRedirect(encodedReason: Option<string>): (location: string)
    ensures encodedReason.Some? ==> location == "/register?message=" + encodedReason.value
    ensures encodedReason.None? ==> location == "/register?message=Unknown+error"
  {
    "/register?message=" + match encodedReason case Some(m) => m case None => "Unknown+error"
  }

  /** The stored profile URL: a missing or empty one is stored as none. */
  function NormalizeTwitterURL(twitterURL: Option<string>): (r: Option<string>)
    ensures r.None? <==> twitterURL.None? || twitterURL.value == ""
    ensures r.Some? ==> r == twitterURL
  {
    match twitterURL
    case Some(t) => if t == "" then None else Some(t)
    case None => None
  }
}
