/**
 * The validation of the account forms in users/froms.py, as Django's `is_valid()` runs it:
 * each field is first cleaned by its own field type (here only "required" and the
 * `max_length` the repository writes out), then by the form's `clean_<field>` method,
 * in declaration order; a field that fails is dropped from `cleaned_data`; the errors are
 * collected field by field.  The registration form is a model form, so after its fields
 * Django also normalises the username and the email (`AbstractUser.clean`) and checks the
 * unique username column against the normalised name.
 */
module UserForms {
  import opened Wrappers
  import opened UserModels
  import Signing

  datatype Field = Username | Email | Password | Password2 | Captcha
                 | OldPassword | NewPassword | NewPassword2 | HeaderImg

  datatype Problem =
    | Required             // Django's "This field is required."
    | UsernameNotUnique    // Django's "A user with that username already exists."
    | TooLong              // Django's max_length message
    | CaptchaInvalid       // the captcha field's own message
    | UsernameInUse        // "账号已存在"
    | EmailInUse           // "该邮箱已注册！！！"
    | PasswordShort        // "密码短"
    | Password2Mismatch    // "确认密码错误"
    | NoSuchAccount        // "账号不存在！！！"
    | AccountUnavailable   // "账号不存在or账号已被封禁" (added by the login view)
    | WrongPassword        // "密码错误" (added by the login view)
    | WrongOldPassword     // "旧密码输入错误"
    | NewPasswordShort     // "新密码至少 6 位"
    | NewPasswordMismatch  // "两次新密码不一致"

  datatype FormError = FormError(field: Field, problem: Problem)

  /** The outcome of `is_valid()`: valid, or the errors the form is re-rendered with. */
  datatype Validation = Clean | Rejected(errors: seq<FormError>)

  /** The shortest password `clean_password` and `clean_new_password` accept. */
  const MinPasswordLength := 6

  /** The `max_length` of the login and profile username fields (users/froms.py:139, 209). */
  const MaxLoginLength := 100

  function Verdict(errors: seq<FormError>): (v: Validation)
    ensures v == Clean <==> errors == []
    ensures v.Rejected? ==> v.errors == errors
  {
    if errors == [] then Clean else Rejected(errors)
  }

  /**
   * Django keeps one error list per field, and a field stops at its first failing rule:
   * the errors name only the form's own fields, each at most once.
   */
  predicate ReportsOnly(errors: seq<FormError>, fields: set<Field>) {
    && (forall i :: 0 <= i < |errors| ==> errors[i].field in fields)
    && (forall i, j :: 0 <= i < j < |errors| ==> errors[i].field != errors[j].field)
  }

  /** The errors of a single rule chain on one field. */
  predicate AtMostOneOn(errors: seq<FormError>, field: Field) {
    |errors| <= 1 && forall i :: 0 <= i < |errors| ==> errors[i].field == field
  }

  lemma {:induction false} ReportsOnlyAppend(errors: seq<FormError>, fields: set<Field>, more: seq<FormError>, field: Field)
    requires ReportsOnly(errors, fields) && field !in fields && AtMostOneOn(more, field)
    ensures ReportsOnly(errors + more, fields + {field})
  {
    var all := errors + more;
    forall i, j | 0 <= i < j < |all|
      ensures all[i].field != all[j].field
    {
      if j >= |errors| {
        assert all[j] == more[j - |errors|];
        assert all[i] == errors[i];
      }
    }
  }

  // ---------------------------------------------------------------- RegisterForm

  /** The POST data of the registration form; `captchaPasses` is the captcha library's verdict. */
  datatype RegisterInput = RegisterInput(
    username: string, email: string, password: string, password2: string, captchaPasses: bool)

  /** Required, then `clean_username`. */
  function UsernameErrors(users: Table, f: RegisterInput): seq<FormError> {
    if f.username == "" then [FormError(Username, Required)]
    else if UsernameTaken(users, f.username) then [FormError(Username, UsernameInUse)]
    else []
  }

  /**
   * `validate_unique` of the model form: the username, as `AbstractUser.clean` normalised it,
   * must not be taken; the check is skipped when the username field already failed.
   */
  function UniqueUsernameErrors(env: Signing.Env, users: Table, f: RegisterInput): seq<FormError> {
    if UsernameErrors(users, f) == [] && UsernameTaken(users, env.normalizeUsername(f.username)) then
      [FormError(Username, UsernameNotUnique)]
    else []
  }

  /** The email column is optional, so `clean_email` also runs on an empty email. */
  function EmailErrors(users: Table, f: RegisterInput): seq<FormError> {
    if EmailTaken(users, f.email) then [FormError(Email, EmailInUse)] else []
  }

  /** Required, then `clean_password`. */
  function PasswordErrors(f: RegisterInput): seq<FormError> {
    if f.password == "" then [FormError(Password, Required)]
    else if |f.password| < MinPasswordLength then [FormError(Password, PasswordShort)]
    else []
  }

  /** The password survives in `cleaned_data` exactly when it raised no error. */
  predicate PasswordKept(f: RegisterInput) {
    PasswordErrors(f) == []
  }

  function CaptchaErrors(f: RegisterInput): seq<FormError> {
    if f.captchaPasses then [] else [FormError(Captcha, CaptchaInvalid)]
  }

  /** Required, then the comparison, made only when the password itself was kept. */
  function Password2Errors(f: RegisterInput): seq<FormError> {
    if f.password2 == "" then [FormError(Password2, Required)]
    else if PasswordKept(f) && f.password2 != f.password then [FormError(Password2, Password2Mismatch)]
    else []
  }

  /** The fields of the registration form. */
  const RegisterFields: set<Field> := {Username, Email, Password, Password2, Captcha}

  /** The errors of the registration form's fields, then those of the model's unique check. */
  function RegisterErrors(env: Signing.Env, users: Table, f: RegisterInput): (errors: seq<FormError>)
    ensures ReportsOnly(errors, RegisterFields)
  {
    var e := UsernameErrors(users, f) + UniqueUsernameErrors(env, users, f);
    assert ReportsOnly(e, {Username});
    ReportsOnlyAppend(e, {Username}, EmailErrors(users, f), Email);
    ReportsOnlyAppend(e + EmailErrors(users, f), {Username, Email}, PasswordErrors(f), Password);
    ReportsOnlyAppend(e + EmailErrors(users, f) + PasswordErrors(f), {Username, Email, Password},
                      Password2Errors(f), Password2);
    ReportsOnlyAppend(e + EmailErrors(users, f) + PasswordErrors(f) + Password2Errors(f),
                      {Username, Email, Password, Password2}, CaptchaErrors(f), Captcha);
    e + EmailErrors(users, f) + PasswordErrors(f) + Password2Errors(f) + CaptchaErrors(f)
  }

  /**
   * `RegisterForm.is_valid()` as written: `clean_password2` reads `cleaned_data['password']`,
   * which raises KeyError (None here) when the password was rejected; nothing catches it.
   */
  function CleanRegisterAsWritten(env: Signing.Env, users: Table, f: RegisterInput): (r: Option<Validation>)
    ensures r.None? ==> |f.password| < MinPasswordLength && f.password2 != ""
    ensures r.Some? && r.value.Rejected? ==> ReportsOnly(r.value.errors, RegisterFields)
  {
    if f.password2 != "" && !PasswordKept(f) then None
    else Some(Verdict(RegisterErrors(env, users, f)))
  }

  /** `RegisterForm.is_valid()` with the password comparison skipped when the password was rejected. */
  function CleanRegister(env: Signing.Env, users: Table, f: RegisterInput): (r: Validation)
    ensures r.Rejected? ==> r.errors != [] && ReportsOnly(r.errors, RegisterFields)
  {
    Verdict(RegisterErrors(env, users, f))
  }

  /** The short password "abc" confirmed as "abc" makes the form as written raise instead of answering. */
  lemma RegisterAsWrittenCrashes(env: Signing.Env)
    ensures CleanRegisterAsWritten(env, map[], RegisterInput("alice", "a@x.com", "abc", "abc", true)) == None
    ensures CleanRegister(env, map[], RegisterInput("alice", "a@x.com", "abc", "abc", true))
            == Rejected([FormError(Password, PasswordShort)])
  {
    var f := RegisterInput("alice", "a@x.com", "abc", "abc", true);
    assert !UsernameTaken(map[], f.username);
    assert !EmailTaken(map[], f.email);
    assert UsernameErrors(map[], f) == [] && EmailErrors(map[], f) == [];
    assert !UsernameTaken(map[], env.normalizeUsername(f.username));
    assert UniqueUsernameErrors(env, map[], f) == [];
  }

  /** The form as written raises exactly when the password was rejected and a confirmation was typed; otherwise it agrees. */
  lemma RegisterAsWrittenAgrees(env: Signing.Env, users: Table, f: RegisterInput)
    ensures CleanRegisterAsWritten(env, users, f).None? <==> f.password2 != "" && !PasswordKept(f)
    ensures CleanRegisterAsWritten(env, users, f).Some? ==> CleanRegisterAsWritten(env, users, f).value == CleanRegister(env, users, f)
  {
  }

  /** The registration form is valid exactly when every rule of users/froms.py:113-133 passes. */
  lemma {:induction false} RegisterValidIff(env: Signing.Env, users: Table, f: RegisterInput)
    ensures CleanRegister(env, users, f) == Clean <==>
      && f.username != "" && !UsernameTaken(users, f.username)
      && !UsernameTaken(users, env.normalizeUsername(f.username))
      && !EmailTaken(users, f.email)
      && |f.password| >= MinPasswordLength
      && f.password2 == f.password
      && f.captchaPasses
  {
  }

  /** A username that some user already has is reported against the username field. */
  lemma RegisterRejectsTakenUsername(env: Signing.Env, users: Table, f: RegisterInput, id: UserId)
    requires id in users && users[id].username == f.username && f.username != ""
    ensures CleanRegister(env, users, f).Rejected?
    ensures FormError(Username, UsernameInUse) in CleanRegister(env, users, f).errors
  {
  }

  /**
   * A username no one holds as typed, but whose normalised form some user holds (a full-width
   * "ｂｏｂ" beside "bob"), passes `clean_username` and is refused by the model's unique check.
   */
  lemma RegisterRejectsNormalisedTakenUsername(env: Signing.Env, users: Table, f: RegisterInput, id: UserId)
    requires f.username != "" && !UsernameTaken(users, f.username)
    requires id in users && users[id].username == env.normalizeUsername(f.username)
    ensures CleanRegister(env, users, f).Rejected?
    ensures FormError(Username, UsernameNotUnique) in CleanRegister(env, users, f).errors
    ensures FormError(Username, UsernameInUse) !in CleanRegister(env, users, f).errors
  {
    var errors := RegisterErrors(env, users, f);
    assert UniqueUsernameErrors(env, users, f) == [FormError(Username, UsernameNotUnique)];
    assert errors[0] == FormError(Username, UsernameNotUnique);
  }

  /** An email that some user already has is reported against the email field. */
  lemma RegisterRejectsTakenEmail(env: Signing.Env, users: Table, f: RegisterInput, id: UserId)
    requires id in users && users[id].email == f.email
    ensures CleanRegister(env, users, f).Rejected?
    ensures FormError(Email, EmailInUse) in CleanRegister(env, users, f).errors
  {
  }

  /** A password shorter than six is reported as short; one of six or more raises no password error. */
  lemma RegisterPasswordLength(env: Signing.Env, users: Table, f: RegisterInput)
    ensures 0 < |f.password| < MinPasswordLength ==>
      CleanRegister(env, users, f).Rejected? && FormError(Password, PasswordShort) in CleanRegister(env, users, f).errors
    ensures |f.password| >= MinPasswordLength ==>
      CleanRegister(env, users, f) == Clean ||
      (forall e :: e in CleanRegister(env, users, f).errors ==> e.field != Password)
  {
  }

  /** A kept password and a different confirmation give "确认密码错误" on the confirmation field. */
  lemma RegisterPassword2Mismatch(env: Signing.Env, users: Table, f: RegisterInput)
    requires PasswordKept(f) && f.password2 != "" && f.password2 != f.password
    ensures CleanRegister(env, users, f).Rejected?
    ensures FormError(Password2, Password2Mismatch) in CleanRegister(env, users, f).errors
  {
  }

  // ---------------------------------------------------------------- LoginForm

  /** The POST data of the login form; `username` may hold a username or an email. */
  datatype LoginInput = LoginInput(username: string, password: string)

  function LoginUsernameErrors(users: Table, f: LoginInput): seq<FormError> {
    if f.username == "" then [FormError(Username, Required)]
    else if |f.username| > MaxLoginLength then [FormError(Username, TooLong)]
    else if !UsernameTaken(users, f.username) && !EmailTaken(users, f.username) then [FormError(Username, NoSuchAccount)]
    else []
  }

  function CleanLogin(users: Table, f: LoginInput): (r: Validation)
    ensures r.Rejected? ==> r.errors != [] && ReportsOnly(r.errors, {Username, Password})
  {
    var passwordErrors := if f.password == "" then [FormError(Password, Required)] else [];
    ReportsOnlyAppend(LoginUsernameErrors(users, f), {Username}, passwordErrors, Password);
    Verdict(LoginUsernameErrors(users, f) + passwordErrors)
  }

  /** The login name is accepted exactly when some user has it as username or as email (and it fits the field). */
  lemma LoginUsernameAcceptedIff(users: Table, f: LoginInput)
    requires f.username != "" && |f.username| <= MaxLoginLength
    ensures LoginUsernameErrors(users, f) == [] <==>
      exists id :: id in users && (users[id].username == f.username || users[id].email == f.username)
  {
  }

  /** The login form is valid exactly when the name is known and a password was typed. */
  lemma LoginValidIff(users: Table, f: LoginInput)
    ensures CleanLogin(users, f) == Clean <==>
      && f.username != "" && |f.username| <= MaxLoginLength && f.password != ""
      && (UsernameTaken(users, f.username) || EmailTaken(users, f.username))
  {
  }

  // ---------------------------------------------------------------- PasswordChangeForm

  datatype PasswordChangeInput = PasswordChangeInput(oldPassword: string, newPassword: string, newPassword2: string)

  /** Required, then `clean_old_password` against the current user's stored hash. */
  function OldPasswordErrors(env: Signing.Env, stored: string, f: PasswordChangeInput): seq<FormError> {
    if f.oldPassword == "" then [FormError(OldPassword, Required)]
    else if !env.checkPassword(f.oldPassword, stored) then [FormError(OldPassword, WrongOldPassword)]
    else []
  }

  /** Required, then `clean_new_password`. */
  function NewPasswordErrors(f: PasswordChangeInput): seq<FormError> {
    if f.newPassword == "" then [FormError(NewPassword, Required)]
    else if |f.newPassword| < MinPasswordLength then [FormError(NewPassword, NewPasswordShort)]
    else []
  }

  /** Required; then `clean()` compares the two new passwords when both are still in `cleaned_data`. */
  function NewPassword2Errors(f: PasswordChangeInput): seq<FormError> {
    if f.newPassword2 == "" then [FormError(NewPassword2, Required)]
    else if NewPasswordErrors(f) == [] && f.newPassword != f.newPassword2 then [FormError(NewPassword2, NewPasswordMismatch)]
    else []
  }

  function CleanPasswordChange(env: Signing.Env, stored: string, f: PasswordChangeInput): (r: Validation)
    ensures r.Rejected? ==> r.errors != [] && ReportsOnly(r.errors, {OldPassword, NewPassword, NewPassword2})
  {
    var oldErrors := OldPasswordErrors(env, stored, f);
    ReportsOnlyAppend(oldErrors, {OldPassword}, NewPasswordErrors(f), NewPassword);
    ReportsOnlyAppend(oldErrors + NewPasswordErrors(f), {OldPassword, NewPassword}, NewPassword2Errors(f), NewPassword2);
    Verdict(oldErrors + NewPasswordErrors(f) + NewPassword2Errors(f))
  }

  /** The change is accepted exactly when the old password checks and the new one is long enough and confirmed. */
  lemma PasswordChangeValidIff(env: Signing.Env, stored: string, f: PasswordChangeInput)
    ensures CleanPasswordChange(env, stored, f) == Clean <==>
      && f.oldPassword != "" && env.checkPassword(f.oldPassword, stored)
      && |f.newPassword| >= MinPasswordLength
      && f.newPassword2 == f.newPassword
  {
  }

  /** An old password that does not check against the stored hash is reported. */
  lemma PasswordChangeRejectsWrongOld(env: Signing.Env, stored: string, f: PasswordChangeInput)
    requires f.oldPassword != "" && !env.checkPassword(f.oldPassword, stored)
    ensures CleanPasswordChange(env, stored, f).Rejected?
    ensures FormError(OldPassword, WrongOldPassword) in CleanPasswordChange(env, stored, f).errors
  {
  }

  /**
   * A non-empty new password shorter than six is reported, and the mismatch error appears
   * exactly when both new passwords survived their own checks and differ.
   */
  lemma PasswordChangeNewPasswordRules(env: Signing.Env, stored: string, f: PasswordChangeInput)
    ensures 0 < |f.newPassword| < MinPasswordLength ==>
      CleanPasswordChange(env, stored, f).Rejected? &&
      FormError(NewPassword, NewPasswordShort) in CleanPasswordChange(env, stored, f).errors
    ensures CleanPasswordChange(env, stored, f).Rejected? ==>
      (FormError(NewPassword2, NewPasswordMismatch) in CleanPasswordChange(env, stored, f).errors <==>
        |f.newPassword| >= MinPasswordLength && f.newPassword2 != "" && f.newPassword != f.newPassword2)
  {
  }

  /** `PasswordChangeForm.save`: only the password column changes, to the hash of the new password. */
  function SaveNewPassword(env: Signing.Env, user: User, newPassword: string): (u: User)
    ensures u.username == user.username && u.email == user.email
    ensures u.isActive == user.isActive && u.avatar == user.avatar
    ensures env.Sound() ==> env.checkPassword(newPassword, u.password)
  {
    user.(password := env.makePassword(newPassword))
  }

  // ---------------------------------------------------------------- UserCenterChangeForm

  /** `headerImg` is the uploaded file's name ("" when no file was sent). */
  datatype UserCenterChangeInput = UserCenterChangeInput(username: string, headerImg: string)

  function CleanUserCenterChange(f: UserCenterChangeInput): (r: Validation)
    ensures r.Rejected? ==> r.errors != [] && ReportsOnly(r.errors, {Username, HeaderImg})
  {
    var usernameErrors :=
      if f.username == "" then [FormError(Username, Required)]
      else if |f.username| > MaxLoginLength then [FormError(Username, TooLong)] else [];
    var imageErrors := if f.headerImg == "" then [FormError(HeaderImg, Required)] else [];
    ReportsOnlyAppend(usernameErrors, {Username}, imageErrors, HeaderImg);
    Verdict(usernameErrors + imageErrors)
  }

  lemma UserCenterChangeValidIff(f: UserCenterChangeInput)
    ensures CleanUserCenterChange(f) == Clean <==>
      f.username != "" && |f.username| <= MaxLoginLength && f.headerImg != ""
  {
  }
}
