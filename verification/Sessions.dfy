/** How the pieces compose across requests: registration then login, the tokens
    login and refresh hand out, and what the bearer gate makes of them. */
module Sessions {
  import opened Common
  import Users
  import opened Tokens
  import Auth
  import LegacyAuth
  import Gate

  /** Registering and then logging in with the same credentials succeeds, for the
      user just created, provided the hasher's digests match their passwords. */
  lemma RegisterThenLogin(s: Users.Store, email: string, password: string, hasher: Hasher,
                          freshId: set<Users.Id> -> Users.Id, jwt: Jwt, env: Env)
    requires Users.EmailsUnique(s) && HashSound(hasher)
    requires Users.CreateUser(s, Some(email), Some(password), hasher.hash, freshId).body.Ok?
    ensures var c := Users.CreateUser(s, Some(email), Some(password), hasher.hash, freshId);
      && Users.EmailsUnique(c.store)
      && var l := Auth.Login(c.store, Some(email), Some(password), hasher, jwt, env);
      && l.body.Ok?
      && l.body.value.user == c.body.value
  {
    var c := Users.CreateUser(s, Some(email), Some(password), hasher.hash, freshId);
    var u := c.body.value;
    assert c.store[u.id].email == email;
    var found := Users.FindByEmail(c.store, email);
    assert found.value == u by {
      assert found.value.id in c.store && c.store[found.value.id].email == email;
    }
    assert hasher.compare(password, hasher.hash(password, Users.SaltRounds));
  }

  /** The access token a login returns gets through the gate, carrying the
      user's id and address. */
  lemma LoginTokenPassesGate(users: Users.Store, email: Option<string>, password: Option<string>,
                             hasher: Hasher, jwt: Jwt, env: Env)
    requires Users.EmailsUnique(users) && Sound(jwt)
    requires Auth.Login(users, email, password, hasher, jwt, env).body.Ok?
    ensures var ok := Auth.Login(users, email, password, hasher, jwt, env).body.value;
      Gate.VerifyJwt(Gate.BearerHeader(ok.accessToken), jwt, env) == Gate.Next(ClaimsOf(ok.user))
  {
    var ok := Auth.Login(users, email, password, hasher, jwt, env).body.value;
    Gate.AcceptsAccessToken(ClaimsOf(ok.user), OneHour, jwt, env);
  }

  /** The refresh cookie a login sets is accepted by refresh while its user still
      exists; the fixed refresh then hands out a token the gate accepts for that
      same user. */
  lemma LoginCookieRefreshes(users: Users.Store, email: Option<string>, password: Option<string>,
                             hasher: Hasher, jwt: Jwt, env: Env)
    requires Users.EmailsUnique(users) && Sound(jwt)
    requires Auth.Login(users, email, password, hasher, jwt, env).body.Ok?
    ensures var l := Auth.Login(users, email, password, hasher, jwt, env);
      var cookie := Some(l.cookies[0].value);
      && Auth.Refresh(users, cookie, jwt, env).body.Ok?
      && var fixed := Auth.RefreshFixed(users, cookie, jwt, env);
      && fixed.body.Ok?
      && Gate.VerifyJwt(Gate.BearerHeader(fixed.body.value), jwt, env) == Gate.Next(ClaimsOf(l.body.value.user))
  {
    var l := Auth.Login(users, email, password, hasher, jwt, env);
    var u := l.body.value.user;
    assert jwt.verify(l.cookies[0].value, env.refreshSecret) == Some(ClaimsOf(u));
    assert users[u.id].email == u.email;
    Gate.AcceptsAccessToken(ClaimsOf(u), OneHour, jwt, env);
  }

  /** The token refresh hands out is signed with the refresh secret, so when the
      two secrets differ the gate refuses it with 403. */
  lemma RefreshedTokenRejected(users: Users.Store, cookie: Option<string>, jwt: Jwt, env: Env)
    requires Sound(jwt) && env.accessSecret != env.refreshSecret
    requires Auth.Refresh(users, cookie, jwt, env).body.Ok?
    ensures Gate.VerifyJwt(Gate.BearerHeader(Auth.Refresh(users, cookie, jwt, env).body.value), jwt, env)
      == Gate.Reject(Forbidden403)
  {
    var decoded := jwt.verify(cookie.value, env.refreshSecret).value;
    Gate.RejectsOtherSecret(Claims(decoded.id, decoded.email), env.refreshSecret, OneHour, jwt, env);
  }

  /** Signed with the access secret, the refreshed token gets through the gate with
      the claims of the refresh token. */
  lemma FixedRefreshTokenAccepted(users: Users.Store, cookie: Option<string>, jwt: Jwt, env: Env)
    requires Sound(jwt)
    requires Auth.RefreshFixed(users, cookie, jwt, env).body.Ok?
    ensures Gate.VerifyJwt(Gate.BearerHeader(Auth.RefreshFixed(users, cookie, jwt, env).body.value), jwt, env)
      == Gate.Next(jwt.verify(cookie.value, env.refreshSecret).value)
  {
    var decoded := jwt.verify(cookie.value, env.refreshSecret).value;
    Gate.AcceptsAccessToken(Claims(decoded.id, decoded.email), OneHour, jwt, env);
  }

  /** The earlier controller signs its access token with the refresh secret too, so
      with distinct secrets the gate refuses it with 403. */
  lemma LegacyAccessTokenRejected(users: Users.Store, email: Option<string>, password: Option<string>,
                                  hasher: Hasher, jwt: Jwt, env: Env)
    requires Users.EmailsUnique(users) && Sound(jwt) && env.accessSecret != env.refreshSecret
    requires LegacyAuth.Login(users, email, password, hasher, jwt, env).body.Ok?
    ensures var ok := LegacyAuth.Login(users, email, password, hasher, jwt, env).body.value;
      Gate.VerifyJwt(Gate.BearerHeader(ok.accessToken), jwt, env) == Gate.Reject(Forbidden403)
  {
    var ok := LegacyAuth.Login(users, email, password, hasher, jwt, env).body.value;
    Gate.RejectsOtherSecret(ClaimsOf(ok.user), env.refreshSecret, OneHour, jwt, env);
  }

  /** The refresh cookie the earlier login sets is accepted by the earlier refresh
      while its user still holds the address. Refresh signs a new token over the
      same claims, with the same secret and lifetime as login's access token, so
      with distinct secrets the gate refuses it just as it refuses that one. */
  lemma LegacyLoginCookieRefreshes(users: Users.Store, email: Option<string>, password: Option<string>,
                                   hasher: Hasher, jwt: Jwt, env: Env)
    requires Users.EmailsUnique(users) && Sound(jwt)
    requires LegacyAuth.Login(users, email, password, hasher, jwt, env).body.Ok?
    ensures var l := LegacyAuth.Login(users, email, password, hasher, jwt, env);
      var r := LegacyAuth.Refresh(users, Some(l.cookies[0].value), jwt, env);
      && r.code == Ok200
      && r.body == Ok(jwt.sign(ClaimsOf(l.body.value.user), env.refreshSecret, OneHour))
      && (env.accessSecret != env.refreshSecret ==>
            Gate.VerifyJwt(Gate.BearerHeader(r.body.value), jwt, env) == Gate.Reject(Forbidden403))
  {
    var l := LegacyAuth.Login(users, email, password, hasher, jwt, env);
    var u := l.body.value.user;
    assert jwt.verify(l.cookies[0].value, env.refreshSecret) == Some(ClaimsOf(u));
    assert users[u.id].email == u.email;
    if env.accessSecret != env.refreshSecret {
      Gate.RejectsOtherSecret(ClaimsOf(u), env.refreshSecret, OneHour, jwt, env);
    }
  }
}
