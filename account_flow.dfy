/**
 * The decisions of the account views in users/views.py, as transitions of the user table
 * (and of the request's session where a view logs in or out).  Rendering, redirects and
 * the activation email are reduced to the `Response` each branch produces.
 */
module AccountFlow {
  import opened Wrappers
  import opened UserModels
  import opened UserForms
  import Uuid
  import Signing

  datatype Response =
    | RedirectLogin                       // redirect(reverse('users:login'))
    | RedirectIndex                       // redirect(reverse('main:index'))
    | RedirectNext(url: string)           // redirect(next_url)
    | RedirectLoginRequired               // what @login_required answers an anonymous request
    | RenderRegister(errors: seq<FormError>)
    | RenderLogin(errors: seq<FormError>)
    | RenderLoginBare                     // render(request, "users/login.html") with no form
    | RenderPasswordChange(errors: seq<FormError>)
    | RenderUserCenterChange(errors: seq<FormError>)
    | PlainText(body: string)             // HttpResponse(body)
    | ServerError                         // an exception the view does not catch

  /** The age, in seconds, past which an activation link is refused (users/views.py:149). */
  const ActivationMaxAge := 60 * 6

  const ExpiredReply := "已过期"
  const InvalidLinkReply := "激活链接无效"

  /** The upload prefix `usercenterchange` writes in front of the avatar's name. */
  const AvatarPrefix := "user/avatars/"

  /** `signer.sign(encryption(str(user.id), KEY_EMAIL))` at time `now`. */
  function ActivationToken(env: Signing.Env, id: UserId, now: real): (t: Signing.SignedToken)
    requires now >= 0.0
    ensures env.Sound() ==> env.decrypt(t.value) == Some(Uuid.Text(id))
  {
    Signing.Sign(env, env.encrypt(Uuid.Text(id)), now)
  }

  /** The session user `@login_required` lets through: present, and active (Django's ModelBackend.get_user). */
  predicate Authenticated(users: Table, session: Option<UserId>) {
    session.Some? && session.value in users && users[session.value].isActive
  }

  // ---------------------------------------------------------------- register

  datatype Registered = Registered(users: Table, response: Response, token: Option<Signing.SignedToken>)

  /**
   * The row `form.save(False)`, `set_password` and `is_active = False` build; the instance
   * holds the username and email as the model form's `AbstractUser.clean` normalised them.
   */
  function NewUser(env: Signing.Env, f: RegisterInput): User {
    User(env.normalizeUsername(f.username), env.normalizeEmail(f.email), env.makePassword(f.password), false, DefaultAvatar)
  }

  /**
   * `register` on POST.  `freshId` is the `uuid4()` the primary key defaults to; inserting
   * a key that is already taken fails with an IntegrityError.
   */
  function Register(env: Signing.Env, users: Table, f: RegisterInput, freshId: UserId, now: real): (r: Registered)
    requires now >= 0.0
    ensures r.token.Some? <==> r.response == RedirectLogin
    ensures r.users.Keys == users.Keys + (if r.token.Some? then {freshId} else {})
    ensures forall id :: id in users ==> id in r.users && r.users[id] == users[id]
    ensures r.token.Some? ==> freshId !in users && !r.users[freshId].isActive
  {
    match CleanRegister(env, users, f)
    case Rejected(errors) => Registered(users, RenderRegister(errors), None)
    case Clean =>
      if freshId in users then Registered(users, ServerError, None)
      else Registered(users[freshId := NewUser(env, f)], RedirectLogin, Some(ActivationToken(env, freshId, now)))
  }

  /**
   * Registration succeeds exactly when the form is valid and the id is fresh; the new row is
   * inactive, holds the hash of the password, and the token is the signed, encrypted id.
   * Otherwise nothing is stored and no token is issued.
   */
  lemma RegisterOutcome(env: Signing.Env, users: Table, f: RegisterInput, freshId: UserId, now: real)
    requires now >= 0.0
    ensures var r := Register(env, users, f, freshId, now);
      && (r.response == RedirectLogin <==> CleanRegister(env, users, f) == Clean && freshId !in users)
      && (r.response == RedirectLogin ==>
            && r.users == users[freshId := User(env.normalizeUsername(f.username), env.normalizeEmail(f.email),
                                                 env.makePassword(f.password), false, DefaultAvatar)]
            && r.token == Some(Signing.Sign(env, env.encrypt(Uuid.Text(freshId)), now)))
      && (r.response != RedirectLogin ==> r.users == users && r.token == None)
  {
  }

  lemma RegisterKeepsUniqueUsernames(env: Signing.Env, users: Table, f: RegisterInput, freshId: UserId, now: real)
    requires now >= 0.0 && UniqueUsernames(users)
    ensures UniqueUsernames(Register(env, users, f, freshId, now).users)
  {
    if CleanRegister(env, users, f) == Clean && freshId !in users {
      RegisterValidIff(env, users, f);
      var u' := Register(env, users, f, freshId, now).users;
      assert forall a :: a in u' && a != freshId ==> a in users && u'[a] == users[a];
    }
  }

  // ---------------------------------------------------------------- active

  datatype Activated = Activated(users: Table, response: Response)

  /**
   * `active(request, id)`: unsign with the six-minute window, decrypt, look the id up, and
   * set `is_active`.  SignatureExpired is caught before BadSignature, its base class.
   * A failed decryption or an id text that is not a UUID raises, uncaught.
   */
  /**
   * The user id an activation link names: its value unsigns within the window, decrypts, and
   * the plain text reads as a UUID.  None when any of these steps fails.
   */
  function LinkedId(env: Signing.Env, t: Signing.SignedToken, now: real): Option<UserId> {
    match Signing.Unsign(env, t, ActivationMaxAge, now)
    case Unsigned(payload) =>
      (match env.decrypt(payload)
       case Some(text) => Uuid.Parse(text)
       case None => None)
    case _ => None
  }

  function Active(env: Signing.Env, users: Table, t: Signing.SignedToken, now: real): (r: Activated)
    ensures r.users.Keys == users.Keys
    ensures forall id :: id in users ==> r.users[id] == users[id] || r.users[id] == users[id].(isActive := true)
    ensures r.users != users ==> r.response == RedirectLogin
    // `except SignatureExpired` comes first, and catches only a correctly signed, late link
    ensures r.response == PlainText(ExpiredReply) <==> Signing.Unsign(env, t, ActivationMaxAge, now).SignatureExpired?
    ensures r.response == PlainText(InvalidLinkReply) <==> Signing.Unsign(env, t, ActivationMaxAge, now).BadSignature?
    // a payload that does not decrypt, or is not a UUID's text, raises past both handlers
    ensures r.response == ServerError <==> Signing.Unsign(env, t, ActivationMaxAge, now).Unsigned? && LinkedId(env, t, now).None?
    ensures r.response == RedirectLogin <==> LinkedId(env, t, now).Some? && LinkedId(env, t, now).value in users
    ensures r.response == RedirectLogin ==>
      var id := LinkedId(env, t, now).value; r.users == users[id := users[id].(isActive := true)]
    ensures r.response == RenderLoginBare <==> LinkedId(env, t, now).Some? && LinkedId(env, t, now).value !in users
  {
    match Signing.Unsign(env, t, ActivationMaxAge, now)
    case SignatureExpired => Activated(users, PlainText(ExpiredReply))
    case BadSignature => Activated(users, PlainText(InvalidLinkReply))
    case Unsigned(payload) =>
      match env.decrypt(payload)
      case None => Activated(users, ServerError)
      case Some(text) =>
        match Uuid.Parse(text)
        case None => Activated(users, ServerError)
        case Some(id) =>
          if id in users then Activated(users[id := users[id].(isActive := true)], RedirectLogin)
          else Activated(users, RenderLoginBare)
  }

  /** Every branch but the successful one leaves the table as it was. */
  lemma ActiveChangesOnlyOnSuccess(env: Signing.Env, users: Table, t: Signing.SignedToken, now: real)
    ensures Active(env, users, t, now).response != RedirectLogin ==> Active(env, users, t, now).users == users
  {
  }

  /** A correctly signed token older than the window answers "已过期" and changes no user. */
  lemma ActiveExpired(env: Signing.Env, users: Table, t: Signing.SignedToken, now: real)
    requires t.signature == env.signature(t.value, t.timestamp)
    requires now - t.timestamp as real > ActivationMaxAge as real
    ensures Active(env, users, t, now) == Activated(users, PlainText(ExpiredReply))
  {
  }

  /** A token whose signature fails answers "激活链接无效" and changes no user, however old it is. */
  lemma ActiveBadSignature(env: Signing.Env, users: Table, t: Signing.SignedToken, now: real)
    requires t.signature != env.signature(t.value, t.timestamp)
    ensures Active(env, users, t, now) == Activated(users, PlainText(InvalidLinkReply))
  {
  }

  /**
   * The link issued for `id`, followed within the window, activates that user alone and
   * redirects to login; when no such user exists it changes nothing and renders the login page.
   */
  lemma ActiveGenuineToken(env: Signing.Env, users: Table, id: UserId, issued: real, now: real)
    requires env.Sound() && Uuid.IsUuid(id) && issued >= 0.0
    requires now - (ActivationToken(env, id, issued).timestamp as real) <= ActivationMaxAge as real
    ensures var r := Active(env, users, ActivationToken(env, id, issued), now);
      && (id in users ==> r.response == RedirectLogin && r.users == users[id := users[id].(isActive := true)])
      && (id !in users ==> r == Activated(users, RenderLoginBare))
  {
    Uuid.ParseText(id);
  }

  /** Following the same link twice leaves the table as following it once. */
  lemma ActiveIdempotent(env: Signing.Env, users: Table, t: Signing.SignedToken, now: real)
    ensures var once := Active(env, users, t, now);
      Active(env, once.users, t, now).users == once.users
  {
    var once := Active(env, users, t, now);
    match Signing.Unsign(env, t, ActivationMaxAge, now)
    case SignatureExpired =>
    case BadSignature =>
    case Unsigned(payload) =>
      match env.decrypt(payload)
      case None =>
      case Some(text) =>
        match Uuid.Parse(text)
        case None =>
        case Some(id) =>
          if id in users {
            assert once.users == users[id := users[id].(isActive := true)];
            assert once.users[id].(isActive := true) == once.users[id];
          }
  }

  lemma ActiveKeepsUniqueUsernames(env: Signing.Env, users: Table, t: Signing.SignedToken, now: real)
    requires UniqueUsernames(users)
    ensures UniqueUsernames(Active(env, users, t, now).users)
  {
    var u' := Active(env, users, t, now).users;
    assert forall a :: a in u' ==> a in users && u'[a].username == users[a].username;
  }

  // ---------------------------------------------------------------- login

  datatype LoggedIn = LoggedIn(response: Response, session: Option<UserId>)

  /** `login` on POST; `next` is the `next` query parameter ("" when absent). */
  function Login(env: Signing.Env, users: Table, session: Option<UserId>, f: LoginInput, next: string): (r: LoggedIn)
    ensures r.session != session ==> r.session.Some? && r.session.value in users && users[r.session.value].isActive
    ensures r.session != session ==> env.checkPassword(f.password, users[r.session.value].password)
  {
    match CleanLogin(users, f)
    case Rejected(errors) => LoggedIn(RenderLogin(errors), session)
    case Clean =>
      var found := FindAccount(users, f.username);
      if found.None? || !users[found.value].isActive then
        LoggedIn(RenderLogin([FormError(Username, AccountUnavailable)]), session)
      else if !env.checkPassword(f.password, users[found.value].password) then
        LoggedIn(RenderLogin([FormError(Password, WrongPassword)]), session)
      else
        LoggedIn(if next != "" then RedirectNext(next) else RedirectIndex, Some(found.value))
  }

  /** A login either leaves the session alone or sets it to the account the name finds. */
  predicate LoginSucceeded(r: LoggedIn) {
    r.response.RedirectNext? || r.response == RedirectIndex
  }

  /**
   * Only an active user found by the name, with the right password, is logged in; the
   * session is then that user's id and the redirect goes to `next`, or to the index.
   */
  lemma LoginSucceedsIff(env: Signing.Env, users: Table, session: Option<UserId>, f: LoginInput, next: string)
    ensures var r := Login(env, users, session, f, next);
      && (LoginSucceeded(r) <==>
            && CleanLogin(users, f) == Clean
            && FindAccount(users, f.username).Some?
            && users[FindAccount(users, f.username).value].isActive
            && env.checkPassword(f.password, users[FindAccount(users, f.username).value].password))
      && (LoginSucceeded(r) ==>
            && r.session == FindAccount(users, f.username)
            && r.response == (if next != "" then RedirectNext(next) else RedirectIndex))
      && (!LoginSucceeded(r) ==> r.session == session)
  {
  }

  /** A valid form naming no active user gives the username error; an active user with a wrong password gets the password error. */
  lemma LoginFailureReasons(env: Signing.Env, users: Table, session: Option<UserId>, f: LoginInput, next: string)
    requires CleanLogin(users, f) == Clean
    ensures var found := FindAccount(users, f.username);
      && (found.None? || !users[found.value].isActive ==>
            Login(env, users, session, f, next).response == RenderLogin([FormError(Username, AccountUnavailable)]))
      && (found.Some? && users[found.value].isActive && !env.checkPassword(f.password, users[found.value].password) ==>
            Login(env, users, session, f, next).response == RenderLogin([FormError(Password, WrongPassword)]))
  {
  }

  /** When one user's username equals another's email, the login name picks the username's owner. */
  lemma LoginPrefersUsername(env: Signing.Env, users: Table, session: Option<UserId>, f: LoginInput, next: string, owner: UserId)
    requires UniqueUsernames(users) && owner in users && users[owner].username == f.username
    requires LoginSucceeded(Login(env, users, session, f, next))
    ensures Login(env, users, session, f, next).session == Some(owner)
  {
  }

  // ---------------------------------------------------------------- passwordchange

  datatype Changed = Changed(users: Table, session: Option<UserId>, response: Response)

  /** `passwordchange` on POST, for the request's session. */
  function PasswordChange(env: Signing.Env, users: Table, session: Option<UserId>, f: PasswordChangeInput): (r: Changed)
    ensures r.users.Keys == users.Keys
    ensures forall id :: id in users ==> r.users[id] == users[id].(password := r.users[id].password)
    ensures r.users != users ==> Authenticated(users, session) && r.users == users[session.value := r.users[session.value]]
    ensures r.session == session || r.session == None
  {
    if !Authenticated(users, session) then Changed(users, session, RedirectLoginRequired)
    else
      var id := session.value;
      match CleanPasswordChange(env, users[id].password, f)
      case Rejected(errors) => Changed(users, session, RenderPasswordChange(errors))
      case Clean => Changed(users[id := SaveNewPassword(env, users[id], f.newPassword)], None, RedirectLogin)
  }

  /**
   * A valid change replaces only the session user's password hash, logs the user out and
   * redirects to login; any other outcome changes no user and keeps the session.
   */
  lemma PasswordChangeOutcome(env: Signing.Env, users: Table, session: Option<UserId>, f: PasswordChangeInput)
    ensures var r := PasswordChange(env, users, session, f);
      && (r.response == RedirectLogin <==>
            Authenticated(users, session) && CleanPasswordChange(env, users[session.value].password, f) == Clean)
      && (r.response == RedirectLogin ==>
            && r.session == None
            && r.users == users[session.value := users[session.value].(password := env.makePassword(f.newPassword))])
      && (r.response != RedirectLogin ==> r.users == users && r.session == session)
  {
  }

  lemma PasswordChangeKeepsUniqueUsernames(env: Signing.Env, users: Table, session: Option<UserId>, f: PasswordChangeInput)
    requires UniqueUsernames(users)
    ensures UniqueUsernames(PasswordChange(env, users, session, f).users)
  {
    var u' := PasswordChange(env, users, session, f).users;
    assert forall a :: a in u' ==> a in users && u'[a].username == users[a].username;
  }

  // ---------------------------------------------------------------- usercenterchange

  /** `usercenterchange` on POST: rename the session user and point the avatar at the uploaded name. */
  function UserCenterChange(users: Table, session: Option<UserId>, f: UserCenterChangeInput): (r: Changed)
    ensures r.session == session && r.users.Keys == users.Keys
    ensures forall id :: id in users ==>
      r.users[id] == users[id].(username := r.users[id].username, avatar := r.users[id].avatar)
    ensures r.users != users ==> Authenticated(users, session) && r.users == users[session.value := r.users[session.value]]
  {
    if !Authenticated(users, session) then Changed(users, session, RedirectLoginRequired)
    else
      var id := session.value;
      match CleanUserCenterChange(f)
      case Rejected(errors) => Changed(users, session, RenderUserCenterChange(errors))
      case Clean =>
        if exists other :: other in users && other != id && users[other].username == f.username then
          Changed(users, session, ServerError)  // the unique username column refuses the save
        else
          Changed(users[id := users[id].(username := f.username, avatar := AvatarPrefix + f.headerImg)], session, RedirectIndex)
  }

  /**
   * A valid change by a logged-in user rewrites that user's username and avatar only, unless
   * another user already holds the name, in which case the save fails and nothing changes.
   */
  lemma UserCenterChangeOutcome(users: Table, session: Option<UserId>, f: UserCenterChangeInput)
    ensures var r := UserCenterChange(users, session, f);
      && r.session == session
      && (r.response == RedirectIndex <==>
            && Authenticated(users, session) && CleanUserCenterChange(f) == Clean
            && forall other :: other in users && users[other].username == f.username ==> other == session.value)
      && (r.response == RedirectIndex ==>
            r.users == users[session.value := users[session.value].(username := f.username, avatar := AvatarPrefix + f.headerImg)])
      && (r.response != RedirectIndex ==> r.users == users)
  {
  }

  lemma UserCenterChangeKeepsUniqueUsernames(users: Table, session: Option<UserId>, f: UserCenterChangeInput)
    requires UniqueUsernames(users)
    ensures UniqueUsernames(UserCenterChange(users, session, f).users)
  {
    var r := UserCenterChange(users, session, f);
    if r.response == RedirectIndex {
      var id := session.value;
      assert forall a :: a in r.users && a != id ==> a in users && r.users[a] == users[a];
    }
  }

  // ---------------------------------------------------------------- the whole lifecycle

  /**
   * Registering, then following the emailed link within six minutes, leaves the new user
   * active with the hash of the chosen password, and every other user as before.
   */
  lemma RegisterThenActivate(env: Signing.Env, users: Table, f: RegisterInput, freshId: UserId, issued: real, now: real)
    requires env.Sound() && Uuid.IsUuid(freshId) && issued >= 0.0
    requires CleanRegister(env, users, f) == Clean && freshId !in users
    requires issued <= now <= issued + ActivationMaxAge as real - 1.0
    ensures var reg := Register(env, users, f, freshId, issued);
      && reg.token.Some?
      && var act := Active(env, reg.users, reg.token.value, now);
      && act.response == RedirectLogin
      && act.users == users[freshId := User(env.normalizeUsername(f.username), env.normalizeEmail(f.email),
                                             env.makePassword(f.password), true, DefaultAvatar)]
  {
    var reg := Register(env, users, f, freshId, issued);
    assert reg.users == users[freshId := NewUser(env, f)];
    ActiveGenuineToken(env, reg.users, freshId, issued, now);
  }

  /**
   * After registration and activation, logging in with the username as stored (the chosen
   * one, normalised) and the chosen password succeeds and logs in the new user.
   */
  lemma RegisterActivateLogin(env: Signing.Env, users: Table, f: RegisterInput, freshId: UserId, issued: real, now: real, next: string)
    requires env.Sound() && Uuid.IsUuid(freshId) && issued >= 0.0 && UniqueUsernames(users)
    requires CleanRegister(env, users, f) == Clean && freshId !in users
    requires 0 < |env.normalizeUsername(f.username)| <= MaxLoginLength
    requires issued <= now <= issued + ActivationMaxAge as real - 1.0
    ensures var reg := Register(env, users, f, freshId, issued);
      && reg.token.Some?
      && var act := Active(env, reg.users, reg.token.value, now);
      && Login(env, act.users, None, LoginInput(env.normalizeUsername(f.username), f.password), next).session == Some(freshId)
  {
    RegisterThenActivate(env, users, f, freshId, issued, now);
    RegisterValidIff(env, users, f);
    var name := env.normalizeUsername(f.username);
    var reg := Register(env, users, f, freshId, issued);
    var act := Active(env, reg.users, reg.token.value, now);
    var u' := act.users;
    assert u'[freshId].username == name;
    RegisterKeepsUniqueUsernames(env, users, f, freshId, issued);
    ActiveKeepsUniqueUsernames(env, reg.users, reg.token.value, now);
    FindAccountByOwnUsername(u', freshId);
    var li := LoginInput(name, f.password);
    assert UsernameTaken(u', name);
    assert CleanLogin(u', li) == Clean;
  }
}
