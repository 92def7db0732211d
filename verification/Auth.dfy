/** The current auth controller: login issues an access token in the body and a
    refresh token in a cookie, refresh reissues a short-lived token from the
    cookie, logout clears the cookie. Every failure answers 400. */
module Auth {
  import opened Common
  import Users
  import opened Tokens

  datatype AuthError =
    | CredentialsRequired
    | UserNotFound(email: string)
    | WrongPassword
    | Unauthorized
    | Forbidden
    | NoContent

  /** Status code, body, and the cookie instructions the response carries. */
  datatype Reply<T> = Reply(code: nat, body: Result<T, AuthError>, cookies: seq<CookieOp>)

  /** The `sameSite` spelling this controller passes. */
  const SameSiteNone: string := "none"

  /** POST /auth. Checks, in order: both fields present, a user holds the address,
      the password matches the stored digest. On success both tokens are signed
      over the same claims of the found user: the access token with the access
      secret for one hour, the refresh token with the refresh secret for seven
      days; the refresh token goes only into the cookie. */
  function Login(users: Users.Store, email: Option<string>, password: Option<string>,
                 hasher: Hasher, jwt: Jwt, env: Env): (r: Reply<LoginSuccess>)
    requires Users.EmailsUnique(users)
    ensures r.body.Err? ==> r.code == BadRequest400 && r.cookies == []
    ensures !Truthy(email) || !Truthy(password) ==> r.body == Err(CredentialsRequired)
    ensures Truthy(email) && Truthy(password) && !Users.EmailTaken(users, email.value) ==>
      r.body == Err(UserNotFound(email.value))
    ensures Truthy(email) && Truthy(password) && Users.EmailTaken(users, email.value) ==>
      (!hasher.compare(password.value, Users.FindByEmail(users, email.value).value.password) ==>
       r.body == Err(WrongPassword))
    ensures r.body.Ok? <==>
      && Truthy(email) && Truthy(password)
      && Users.EmailTaken(users, email.value)
      && hasher.compare(password.value, Users.FindByEmail(users, email.value).value.password)
    ensures r.body.Ok? ==>
      var u := r.body.value.user;
      && r.code == Ok200
      && u.id in users && users[u.id] == u && u.email == email.value
      && r.body.value.accessToken == jwt.sign(ClaimsOf(u), env.accessSecret, OneHour)
      && |r.cookies| == 1
      && r.cookies[0].SetCookie?
      && r.cookies[0].name == RefreshCookieName
      && r.cookies[0].value == jwt.sign(ClaimsOf(u), env.refreshSecret, SevenDays)
      && r.cookies[0].options.httpOnly
      && (r.cookies[0].options.secure <==> env.nodeEnv == "production")
      && r.cookies[0].options.sameSite == "none"
      && r.cookies[0].options.maxAge == Some(604800000)
  {
    if !Truthy(email) || !Truthy(password) then Reply(BadRequest400, Err(CredentialsRequired), [])
    else match Users.FindByEmail(users, email.value)
      case None => Reply(BadRequest400, Err(UserNotFound(email.value)), [])
      case Some(u) =>
        if !hasher.compare(password.value, u.password) then Reply(BadRequest400, Err(WrongPassword), [])
        else
          var payload := ClaimsOf(u);
          var accessToken := jwt.sign(payload, env.accessSecret, OneHour);
          var refreshToken := jwt.sign(payload, env.refreshSecret, SevenDays);
          var cookie := SetCookie(RefreshCookieName, refreshToken,
                                  RefreshCookieOptions(env, SameSiteNone, Some(RefreshMaxAgeMs)));
          Reply(Ok200, Ok(LoginSuccess(accessToken, u)), [cookie])
  }

  /** GET /auth/refresh AS WRITTEN. The verification callback is not awaited: it
      either rejects on its own (bad token, unknown user) or assigns the new token
      only after its database look-up, by which time the handler has already
      answered. So any truthy cookie gets 200 with a null token. */
  function RefreshAsWritten(cookie: Option<string>): (r: Reply<Option<string>>)
    ensures r.cookies == []
    ensures r.body.Ok? <==> Truthy(cookie)
    ensures r.body.Ok? ==> r.code == Ok200 && r.body.value == None
    ensures r.body.Err? ==> r.code == BadRequest400 && r.body.error == Unauthorized
  {
    if !Truthy(cookie) then Reply(BadRequest400, Err(Unauthorized), [])
    else Reply(Ok200, Ok(None), [])
  }

  /** GET /auth/refresh with verification awaited, the reissued token signed with
      `secret`: checks, in order, a truthy cookie, a token that verifies under the
      refresh secret, a user that still holds the token's address; then signs a
      one-hour token over the decoded id and address. */
  function RefreshSignedWith(users: Users.Store, cookie: Option<string>, jwt: Jwt, env: Env, secret: string): (r: Reply<string>)
    ensures r.cookies == []
    ensures r.body.Err? ==> r.code == BadRequest400
    ensures !Truthy(cookie) ==> r.body == Err(Unauthorized)
    ensures Truthy(cookie) && jwt.verify(cookie.value, env.refreshSecret).None? ==> r.body == Err(Forbidden)
    ensures Truthy(cookie) && jwt.verify(cookie.value, env.refreshSecret).Some? ==>
      (!Users.EmailTaken(users, jwt.verify(cookie.value, env.refreshSecret).value.email) ==>
       r.body == Err(Unauthorized))
    ensures r.body.Ok? <==>
      && Truthy(cookie)
      && jwt.verify(cookie.value, env.refreshSecret).Some?
      && Users.EmailTaken(users, jwt.verify(cookie.value, env.refreshSecret).value.email)
    ensures r.body.Ok? ==>
      var decoded := jwt.verify(cookie.value, env.refreshSecret).value;
      r.code == Ok200 && r.body.value == jwt.sign(Claims(decoded.id, decoded.email), secret, OneHour)
  {
    if !Truthy(cookie) then Reply(BadRequest400, Err(Unauthorized), [])
    else match jwt.verify(cookie.value, env.refreshSecret)
      case None => Reply(BadRequest400, Err(Forbidden), [])
      case Some(decoded) =>
        if !Users.EmailTaken(users, decoded.email) then Reply(BadRequest400, Err(Unauthorized), [])
        else
          var payload := Claims(decoded.id, decoded.email);
          Reply(Ok200, Ok(jwt.sign(payload, secret, OneHour)), [])
  }

  /** GET /auth/refresh with verification awaited, signing with the refresh secret
      as the source does. */
  function Refresh(users: Users.Store, cookie: Option<string>, jwt: Jwt, env: Env): (r: Reply<string>)
    ensures r.cookies == []
    ensures r.body.Err? ==> r.code == BadRequest400
    ensures !Truthy(cookie) ==> r.body == Err(Unauthorized)
    ensures Truthy(cookie) && jwt.verify(cookie.value, env.refreshSecret).None? ==> r.body == Err(Forbidden)
    ensures Truthy(cookie) && jwt.verify(cookie.value, env.refreshSecret).Some? ==>
      (!Users.EmailTaken(users, jwt.verify(cookie.value, env.refreshSecret).value.email) ==>
       r.body == Err(Unauthorized))
    ensures r.body.Ok? <==>
      && Truthy(cookie)
      && jwt.verify(cookie.value, env.refreshSecret).Some?
      && Users.EmailTaken(users, jwt.verify(cookie.value, env.refreshSecret).value.email)
    ensures r.body.Ok? ==>
      var decoded := jwt.verify(cookie.value, env.refreshSecret).value;
      r.code == Ok200 && r.body.value == jwt.sign(Claims(decoded.id, decoded.email), env.refreshSecret, OneHour)
  {
    RefreshSignedWith(users, cookie, jwt, env, env.refreshSecret)
  }

  /** Refresh with the reissued access token signed under the access secret, the
      secret the bearer gate verifies with. */
  function RefreshFixed(users: Users.Store, cookie: Option<string>, jwt: Jwt, env: Env): (r: Reply<string>)
    ensures r.cookies == []
    ensures r.body.Err? ==> r == Refresh(users, cookie, jwt, env)
    ensures r.body.Ok? <==> Refresh(users, cookie, jwt, env).body.Ok?
    ensures r.body.Ok? ==>
      var decoded := jwt.verify(cookie.value, env.refreshSecret).value;
      r.code == Ok200 && r.body.value == jwt.sign(Claims(decoded.id, decoded.email), env.accessSecret, OneHour)
  {
    RefreshSignedWith(users, cookie, jwt, env, env.accessSecret)
  }

  /** The race: a forged refresh cookie is answered 200 (with a null token), where
      awaiting the verification answers 400 Forbidden. */
  lemma RefreshRaceAcceptsForgedCookie(users: Users.Store, cookie: string, jwt: Jwt, env: Env)
    requires cookie != "" && jwt.verify(cookie, env.refreshSecret).None?
    ensures RefreshAsWritten(Some(cookie)).code == Ok200
    ensures Refresh(users, Some(cookie), jwt, env).body == Err(Forbidden)
  {
  }

  /** POST /auth/logout. Without a cookie the call fails with "No content!";
      otherwise the refresh cookie is cleared with the login flags and no
      `maxAge`. Nothing on the server changes. */
  function Logout(cookie: Option<string>, env: Env): (r: Reply<()>)
    ensures !Truthy(cookie) ==> r == Reply(BadRequest400, Err(NoContent), [])
    ensures Truthy(cookie) ==>
      && r.code == Ok200 && r.body.Ok?
      && |r.cookies| == 1
      && r.cookies[0].ClearCookie?
      && r.cookies[0].name == RefreshCookieName
      && r.cookies[0].options.httpOnly
      && (r.cookies[0].options.secure <==> env.nodeEnv == "production")
      && r.cookies[0].options.sameSite == "none"
      && r.cookies[0].options.maxAge == None
  {
    if !Truthy(cookie) then Reply(BadRequest400, Err(NoContent), [])
    else Reply(Ok200, Ok(()), [ClearCookie(RefreshCookieName, RefreshCookieOptions(env, SameSiteNone, None))])
  }

  /** Logging out with the cookie a login set clears that same cookie: same name
      and flags, the only difference being the absent `maxAge`. */
  lemma LogoutClearsLoginCookie(users: Users.Store, email: Option<string>, password: Option<string>,
                                hasher: Hasher, jwt: Jwt, env: Env)
    requires Users.EmailsUnique(users)
    requires Login(users, email, password, hasher, jwt, env).body.Ok?
    requires Login(users, email, password, hasher, jwt, env).cookies[0].value != ""
    ensures var issued := Login(users, email, password, hasher, jwt, env).cookies[0];
      var cleared := Logout(Some(issued.value), env).cookies[0];
      cleared.name == issued.name && cleared.options == issued.options.(maxAge := None)
  {
  }
}
