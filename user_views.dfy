/**
 * The account views of users/views.py as methods of one object holding the user table and
 * the current request's session.  Each method does what its view does, step by step, and
 * promises the transition `AccountFlow` defines for it; the properties of those transitions
 * are proved there.
 */
module UserViews {
  import opened Wrappers
  import opened UserModels
  import opened UserForms
  import opened AccountFlow
  import Uuid
  import Signing

  class Site {
    /** The foreign cipher, signer and hasher (utils/encryption_decryption.py, Django). */
    const env: Signing.Env
    /** The user table. */
    var users: Table
    /** The user the current request's session is logged in as. */
    var session: Option<UserId>

    ghost predicate Valid()
      reads this
    {
      env.Sound() && UniqueUsernames(users)
    }

    constructor (env: Signing.Env, users: Table)
      requires env.Sound() && UniqueUsernames(users)
      ensures Valid() && this.env == env && this.users == users && session == None
    {
      this.env := env;
      this.users := users;
      this.session := None;
    }

    /** `register` on POST; the issued token is what the activation email links to. */
    method Register(f: RegisterInput, freshId: UserId, now: real) returns (response: Response, token: Option<Signing.SignedToken>)
      requires Valid() && now >= 0.0
      modifies this
      ensures Valid() && session == old(session)
      ensures var r := AccountFlow.Register(env, old(users), f, freshId, now);
        users == r.users && response == r.response && token == r.token
    {
      RegisterKeepsUniqueUsernames(env, users, f, freshId, now);
      var form := CleanRegister(env, users, f);
      if form.Rejected? {
        response, token := RenderRegister(form.errors), None;
        return;
      }
      if freshId in users {
        response, token := ServerError, None;
        return;
      }
      // form.save(False): the instance the model form built, with its username and email normalised
      var user := User(env.normalizeUsername(f.username), env.normalizeEmail(f.email), f.password, true, DefaultAvatar);
      user := user.(password := env.makePassword(f.password));
      user := user.(isActive := false);
      users := users[freshId := user];                                          // user.save()
      var userId := env.encrypt(Uuid.Text(freshId));
      var signed := Signing.Sign(env, userId, now);
      response, token := RedirectLogin, Some(signed);
    }

    /** `login` on POST; `next` is the query parameter ("" when absent). */
    method Login(f: LoginInput, next: string) returns (response: Response)
      requires Valid()
      modifies this
      ensures Valid() && users == old(users)
      ensures var r := AccountFlow.Login(env, old(users), old(session), f, next);
        response == r.response && session == r.session
    {
      var form := CleanLogin(users, f);
      if form.Rejected? {
        return RenderLogin(form.errors);
      }
      var user := FirstByUsername(users, f.username);
      if user.None? {
        user := FirstByEmail(users, f.username);
      }
      if user.Some? && users[user.value].isActive {
        if env.checkPassword(f.password, users[user.value].password) {
          session := Some(user.value);
          if next != "" {
            response := RedirectNext(next);
          } else {
            response := RedirectIndex;
          }
        } else {
          response := RenderLogin([FormError(Password, WrongPassword)]);
        }
      } else {
        response := RenderLogin([FormError(Username, AccountUnavailable)]);
      }
    }

    /** `logout`: the session forgets its user. */
    method Logout() returns (response: Response)
      requires Valid()
      modifies this
      ensures Valid() && users == old(users) && session == None && response == RedirectIndex
    {
      session := None;
      response := RedirectIndex;
    }

    /** `passwordchange` on POST. */
    method PasswordChange(f: PasswordChangeInput) returns (response: Response)
      requires Valid()
      modifies this
      ensures Valid()
      ensures var r := AccountFlow.PasswordChange(env, old(users), old(session), f);
        users == r.users && session == r.session && response == r.response
    {
      PasswordChangeKeepsUniqueUsernames(env, users, session, f);
      if !Authenticated(users, session) {
        return RedirectLoginRequired;
      }
      var id := session.value;
      var form := CleanPasswordChange(env, users[id].password, f);
      if form.Rejected? {
        return RenderPasswordChange(form.errors);
      }
      users := users[id := SaveNewPassword(env, users[id], f.newPassword)];
      session := None;
      response := RedirectLogin;
    }

    /** `usercenterchange` on POST; `f.headerImg` is the uploaded file's name. */
    method UserCenterChange(f: UserCenterChangeInput) returns (response: Response)
      requires Valid()
      modifies this
      ensures Valid()
      ensures var r := AccountFlow.UserCenterChange(old(users), old(session), f);
        users == r.users && session == r.session && response == r.response
    {
      UserCenterChangeKeepsUniqueUsernames(users, session, f);
      if !Authenticated(users, session) {
        return RedirectLoginRequired;
      }
      var id := session.value;
      var form := CleanUserCenterChange(f);
      if form.Rejected? {
        return RenderUserCenterChange(form.errors);
      }
      var user := users[id].(username := f.username);
      user := user.(avatar := AvatarPrefix + f.headerImg);
      if exists other :: other in users && other != id && users[other].username == f.username {
        return ServerError;
      }
      users := users[id := user];
      response := RedirectIndex;
    }

    /** `active(request, id)` for the token in the link, at clock time `now`. */
    method Active(t: Signing.SignedToken, now: real) returns (response: Response)
      requires Valid()
      modifies this
      ensures Valid() && session == old(session)
      ensures var r := AccountFlow.Active(env, old(users), t, now);
        users == r.users && response == r.response
    {
      ActiveKeepsUniqueUsernames(env, users, t, now);
      var unsigned := Signing.Unsign(env, t, ActivationMaxAge, now);
      match unsigned
      case SignatureExpired =>
        response := PlainText(ExpiredReply);
      case BadSignature =>
        response := PlainText(InvalidLinkReply);
      case Unsigned(designered) =>
        var userId := env.decrypt(designered);
        if userId.None? {
          return ServerError;
        }
        var id := Uuid.Parse(userId.value);
        if id.None? {
          return ServerError;
        }
        if id.value in users {
          var user := users[id.value].(isActive := true);
          users := users[id.value := user];
          response := RedirectLogin;
        } else {
          response := RenderLoginBare;
        }
    }
  }

  /**
   * A client of the views: a visitor registers, follows the emailed link a minute later,
   * follows it again, and logs in under the username as the site stored it.
   */
  method RegisterActivateAndLogIn(site: Site, f: RegisterInput, freshId: UserId, issued: real)
    requires site.Valid() && Uuid.IsUuid(freshId) && issued >= 0.0
    requires CleanRegister(site.env, site.users, f) == Clean && freshId !in site.users
    requires 0 < |site.env.normalizeUsername(f.username)| <= MaxLoginLength
    modifies site
    ensures site.Valid() && site.session == Some(freshId) && freshId in site.users && site.users[freshId].isActive
  {
    ghost var before := site.users;
    var response, token := site.Register(f, freshId, issued);
    RegisterThenActivate(site.env, before, f, freshId, issued, issued + 60.0);
    RegisterActivateLogin(site.env, before, f, freshId, issued, issued + 60.0, "");
    ghost var registered := site.users;
    response := site.Active(token.value, issued + 60.0);
    ghost var activated := site.users;
    ActiveIdempotent(site.env, registered, token.value, issued + 60.0);
    response := site.Active(token.value, issued + 60.0);
    assert site.users == activated;
    response := site.Login(LoginInput(site.env.normalizeUsername(f.username), f.password), "");
  }
}
