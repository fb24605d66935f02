/** The profile form: the check run before saving, and the body sent to the server. */
module Profile {
  import opened Text
  import opened Results

  datatype ProfileForm = ProfileForm(
    name: string, email: string,
    currentPassword: string, newPassword: string, confirmPassword: string)

  /** `validateForm`: passes, or fails with the one message it shows. */
  datatype Validation = Passed | Rejected(message: string)

  const NameRequired := "Name is required"
  const EmailRequired := "Email is required"
  const CurrentPasswordRequired := "Current password is required to change password"
  const NewPasswordRequired := "New password is required"
  const PasswordTooShort := "New password must be at least 6 characters"
  const PasswordsDiffer := "New passwords don't match"
  const MinPasswordLength := 6

  /** Some password field is non-empty, so the user is changing the password. */
  predicate ChangingPassword(form: ProfileForm) {
    form.currentPassword != "" || form.newPassword != "" || form.confirmPassword != ""
  }

  /** `validateForm`: the name, then the email, then, only when a password field is
      filled, the four password checks, stopping at the first that fails. */
  function ValidateForm(form: ProfileForm): Validation {
    if Blank(form.name, JavaScript) then Rejected(NameRequired)
    else if Blank(form.email, JavaScript) then Rejected(EmailRequired)
    else if ChangingPassword(form) then
      if form.currentPassword == "" then Rejected(CurrentPasswordRequired)
      else if form.newPassword == "" then Rejected(NewPasswordRequired)
      else if Utf16Length(form.newPassword) < MinPasswordLength then Rejected(PasswordTooShort)
      else if form.newPassword != form.confirmPassword then Rejected(PasswordsDiffer)
      else Passed
    else Passed
  }

  /** The checks as an ordered table of (fails, message) rows. */
  function Checks(form: ProfileForm): seq<(bool, string)> {
    var changing := ChangingPassword(form);
    [(Blank(form.name, JavaScript), NameRequired)]
    + ([(Blank(form.email, JavaScript), EmailRequired)]
    + ([(changing && form.currentPassword == "", CurrentPasswordRequired)]
    + ([(changing && form.newPassword == "", NewPasswordRequired)]
    + ([(changing && Utf16Length(form.newPassword) < MinPasswordLength, PasswordTooShort)]
    + [(changing && form.newPassword != form.confirmPassword, PasswordsDiffer)]))))
  }

  /** The message of the first failing row, if any. */
  function FirstFailure(checks: seq<(bool, string)>): Validation {
    if checks == [] then Passed
    else if checks[0].0 then Rejected(checks[0].1)
    else FirstFailure(checks[1..])
  }

  /** The password part of the body. */
  datatype PasswordChange = PasswordChange(currentPassword: string, newPassword: string)

  /** The body of the update request. */
  datatype ProfilePayload = ProfilePayload(name: string, email: string, password: Option<PasswordChange>)

  /** The payload `handleSubmit` builds: name and email always, the two passwords only
      when both are given. */
  method BuildPayload(form: ProfileForm) returns (payload: ProfilePayload)
    ensures payload.name == form.name && payload.email == form.email
    ensures payload.password.Some? <==> form.currentPassword != "" && form.newPassword != ""
    ensures payload.password.Some? ==>
      payload.password.value == PasswordChange(form.currentPassword, form.newPassword)
  {
    payload := ProfilePayload(form.name, form.email, None);
    if form.currentPassword != "" && form.newPassword != "" {
      payload := payload.(password := Some(PasswordChange(form.currentPassword, form.newPassword)));
    }
  }

  // ---------------------------------------------------------------------------
  // Properties
  // ---------------------------------------------------------------------------

  /** The decision chain is the first failing row of the table of checks, so each
      rejected form gets exactly one message, the earliest one that applies. */
  lemma ValidationIsFirstFailure(form: ProfileForm)
    ensures ValidateForm(form) == FirstFailure(Checks(form))
  {
    var changing := ChangingPassword(form);
    var r0 := (Blank(form.name, JavaScript), NameRequired);
    var r1 := (Blank(form.email, JavaScript), EmailRequired);
    var r2 := (changing && form.currentPassword == "", CurrentPasswordRequired);
    var r3 := (changing && form.newPassword == "", NewPasswordRequired);
    var r4 := (changing && Utf16Length(form.newPassword) < MinPasswordLength, PasswordTooShort);
    var r5 := (changing && form.newPassword != form.confirmPassword, PasswordsDiffer);
    FirstFailureCons(r5, []);
    FirstFailureCons(r4, [r5]);
    FirstFailureCons(r3, [r4] + [r5]);
    FirstFailureCons(r2, [r3] + ([r4] + [r5]));
    FirstFailureCons(r1, [r2] + ([r3] + ([r4] + [r5])));
    FirstFailureCons(r0, [r1] + ([r2] + ([r3] + ([r4] + [r5]))));
    assert [r5] + [] == [r5];
  }

  lemma FirstFailureCons(row: (bool, string), rest: seq<(bool, string)>)
    ensures FirstFailure([row] + rest) == if row.0 then Rejected(row.1) else FirstFailure(rest)
  {
    assert ([row] + rest)[1..] == rest;
  }

  /** A blank name is reported before anything else, and a blank email only after the
      name passed. */
  lemma NameThenEmail(form: ProfileForm)
    ensures Blank(form.name, JavaScript) ==> ValidateForm(form) == Rejected(NameRequired)
    ensures !Blank(form.name, JavaScript) && Blank(form.email, JavaScript) ==>
      ValidateForm(form) == Rejected(EmailRequired)
  {
  }

  /** Exactly what a passing form satisfies. */
  lemma PassingForms(form: ProfileForm)
    ensures ValidateForm(form) == Passed <==>
      && !Blank(form.name, JavaScript) && !Blank(form.email, JavaScript)
      && (ChangingPassword(form) ==>
            && form.currentPassword != "" && form.newPassword != ""
            && Utf16Length(form.newPassword) >= MinPasswordLength
            && form.newPassword == form.confirmPassword)
  {
  }

  /** With no password field filled, a name and an email are enough. */
  lemma NoPasswordChange(form: ProfileForm)
    requires !Blank(form.name, JavaScript) && !Blank(form.email, JavaScript)
    requires form.currentPassword == "" && form.newPassword == "" && form.confirmPassword == ""
    ensures ValidateForm(form) == Passed
  {
  }

  /** A form that passed sends the password change exactly when the user was
      changing it, with a new password of at least six units that was confirmed. */
  lemma PassedFormPayload(form: ProfileForm)
    requires ValidateForm(form) == Passed
    ensures ChangingPassword(form) <==> form.currentPassword != "" && form.newPassword != ""
    ensures ChangingPassword(form) ==>
      form.newPassword == form.confirmPassword && Utf16Length(form.newPassword) >= MinPasswordLength
  {
    PassingForms(form);
  }
}
