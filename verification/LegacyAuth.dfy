/** The earlier auth controller at the repository root. Same checks in the same
    order as the current one, but each failure has its own status code, both
    login tokens are signed with the refresh secret, and the verification
    callback of refresh sends the response itself. */
module LegacyAuth {
  import opened Common
  import Users
  import opened Tokens

  datatype Failure = Failure(code: nat, message: string)

  datatype Reply<T> = Reply(code: nat, body: Result<T, Failure>, cookies: seq<CookieOp>)

  /** The `sameSite` spelling this controller passes. */
  const SameSiteNone: string := "None"

  /** POST /auth: 400 for a missing field, 404 for an unknown address, 401 for a
      wrong password, else 200 with both tokens signed over the same claims. */
  function Login(users: Users.Store, email: Option<string>, password: Option<string>,
                 hasher: Hasher, jwt: Jwt, env: Env): (r: Reply<LoginSuccess>)
    requires Users.EmailsUnique(users)
    ensures r.body.Err? ==> r.cookies == [] && r.code == r.body.error.code
    ensures !Truthy(email) || !Truthy(password) ==> r.code == BadRequest400 && r.body.Err?
    ensures Truthy(email) && Truthy(password) ==>
      (r.code == NotFound404 <==> !Users.EmailTaken(users, email.value))
    ensures Truthy(email) && Truthy(password) && Users.EmailTaken(users, email.value) ==>
      var u := Users.FindByEmail(users, email.value).value;
      && (!hasher.compare(password.value, u.password) ==> r.code == Unauthorized401 && r.body.Err?)
      && (hasher.compare(password.value, u.password) ==> r.code == Ok200 && r.body.Ok?)
    ensures r.body.Ok? ==>
      var u := r.body.value.user;
      && u.id in users && users[u.id] == u && u.email == email.value
      && r.body.value.accessToken == jwt.sign(ClaimsOf(u), env.refreshSecret, OneHour)
      && r.cookies == [SetCookie(RefreshCookieName, jwt.sign(ClaimsOf(u), env.refreshSecret, SevenDays),
                                 CookieOptions(true, env.nodeEnv == "production", "None", Some(604800000)))]
  {
    if !Truthy(email) || !Truthy(password) then
      Reply(BadRequest400, Err(Failure(BadRequest400, "Email and password are required!")), [])
    else match Users.FindByEmail(users, email.value)
      case None => Reply(NotFound404, Err(Failure(NotFound404, "User with email " + email.value + " not found!")), [])
      case Some(u) =>
        if !hasher.compare(password.value, u.password) then
          Reply(Unauthorized401, Err(Failure(Unauthorized401, "Error signing in: Invalid password!")), [])
        else
          var payload := ClaimsOf(u);
          var accessToken := jwt.sign(payload, env.refreshSecret, OneHour);
          var refreshToken := jwt.sign(payload, env.refreshSecret, SevenDays);
          var cookie := SetCookie(RefreshCookieName, refreshToken,
                                  RefreshCookieOptions(env, SameSiteNone, Some(RefreshMaxAgeMs)));
          Reply(Ok200, Ok(LoginSuccess(accessToken, u)), [cookie])
  }

  /** A known address with a wrong password is 401, never 404. */
  lemma WrongPasswordIsNotNotFound(users: Users.Store, email: string, password: string,
                                   hasher: Hasher, jwt: Jwt, env: Env)
    requires Users.EmailsUnique(users)
    requires email != "" && password != ""
    requires exists k :: k in users && users[k].email == email && !hasher.compare(password, users[k].password)
    ensures Login(users, Some(email), Some(password), hasher, jwt, env).code == Unauthorized401
  {
    var k :| k in users && users[k].email == email && !hasher.compare(password, users[k].password);
    assert Users.FindByEmail(users, email).value == users[k];
  }

  /** GET /auth/refresh: 401 without a cookie, 403 for a token that does not verify
      under the refresh secret, 401 when no user holds its address any more, else
      200 with a one-hour token over the decoded id and address. */
  function Refresh(users: Users.Store, cookie: Option<string>, jwt: Jwt, env: Env): (r: Reply<string>)
    ensures r.cookies == []
    ensures r.body.Err? ==> r.code == r.body.error.code
    ensures !Truthy(cookie) ==> r.code == Unauthorized401 && r.body.Err?
    ensures Truthy(cookie) && jwt.verify(cookie.value, env.refreshSecret).None? ==>
      r.code == Forbidden403 && r.body.Err?
    ensures Truthy(cookie) && jwt.verify(cookie.value, env.refreshSecret).Some? ==>
      var decoded := jwt.verify(cookie.value, env.refreshSecret).value;
      && (!Users.EmailTaken(users, decoded.email) ==> r.code == Unauthorized401 && r.body.Err?)
      && (Users.EmailTaken(users, decoded.email) ==>
            r.code == Ok200 && r.body == Ok(jwt.sign(Claims(decoded.id, decoded.email), env.refreshSecret, OneHour)))
  {
    if !Truthy(cookie) then Reply(Unauthorized401, Err(Failure(Unauthorized401, "Unauthorized")), [])
    else match jwt.verify(cookie.value, env.refreshSecret)
      case None => Reply(Forbidden403, Err(Failure(Forbidden403, "Forbidden")), [])
      case Some(decoded) =>
        if !Users.EmailTaken(users, decoded.email) then
          Reply(Unauthorized401, Err(Failure(Unauthorized401, "Unauthorized")), [])
        else
          var payload := Claims(decoded.id, decoded.email);
          Reply(Ok200, Ok(jwt.sign(payload, env.refreshSecret, OneHour)), [])
  }

  /** POST /auth/logout: 204 and no cookie instruction without a cookie, else the
      refresh cookie is cleared and the call answers 200. */
  function Logout(cookie: Option<string>, env: Env): (r: Reply<()>)
    ensures r.body.Ok?
    ensures !Truthy(cookie) ==> r.code == NoContent204 && r.cookies == []
    ensures Truthy(cookie) ==>
      r.code == Ok200 &&
      r.cookies == [ClearCookie(RefreshCookieName, CookieOptions(true, env.nodeEnv == "production", "None", None))]
  {
    if !Truthy(cookie) then Reply(NoContent204, Ok(()), [])
    else Reply(Ok200, Ok(()), [ClearCookie(RefreshCookieName, RefreshCookieOptions(env, SameSiteNone, None))])
  }

  /** Logging out with the cookie the earlier login set clears that same cookie:
      same name and flags, without `maxAge`, and answers 200. */
  lemma LogoutClearsLoginCookie(users: Users.Store, email: Option<string>, password: Option<string>,
                                hasher: Hasher, jwt: Jwt, env: Env)
    requires Users.EmailsUnique(users) && Sound(jwt)
    requires Login(users, email, password, hasher, jwt, env).body.Ok?
    ensures var issued := Login(users, email, password, hasher, jwt, env).cookies[0];
      var out := Logout(Some(issued.value), env);
      && out.code == Ok200
      && |out.cookies| == 1 && out.cookies[0].ClearCookie?
      && out.cookies[0].name == issued.name
      && out.cookies[0].options == issued.options.(maxAge := None)
  {
    var issued := Login(users, email, password, hasher, jwt, env).cookies[0];
    assert issued.value != "";
  }
}
