/** What the auth controllers and the bearer gate share: the identity claims signed
    into tokens, the signing and hashing libraries as pluggable function values,
    the process environment they read, and the refresh-token cookie. */
module Tokens {
  import opened Common
  import Users

  /** The token payload `{ User: { id, email } }`. */
  datatype Claims = Claims(id: string, email: string)

  /** The claims a token issued for `u` carries. */
  function ClaimsOf(u: Users.User): Claims
  {
    Claims(u.id, u.email)
  }

  /** The `expiresIn` option of a signature: `'1h'` or `'7d'`. */
  datatype Lifetime = OneHour | SevenDays

  /** Lifetimes in seconds. */
  function Seconds(l: Lifetime): nat
  {
    match l
    case OneHour => 60 * 60
    case SevenDays => 7 * 24 * 60 * 60
  }

  /** The token library: `sign(claims, secret, lifetime)` and
      `verify(token, secret)`, which yields the claims or nothing. */
  datatype Jwt = Jwt(sign: (Claims, string, Lifetime) -> string, verify: (string, string) -> Option<Claims>)

  /** An honest signer, used within a token's lifetime: a token verifies under the
      secret it was signed with, giving back its claims, and under no other secret;
      a signed token is never empty and never contains a space. */
  ghost predicate Sound(j: Jwt)
  {
    && (forall c, secret, l :: j.verify(j.sign(c, secret, l), secret) == Some(c))
    && (forall c, secret, l, other :: other != secret ==> j.verify(j.sign(c, secret, l), other) == None)
    && (forall c, secret, l :: j.sign(c, secret, l) != "" && ' ' !in j.sign(c, secret, l))
  }

  /** What a successful login yields: the access token the client receives, and the
      found user record. The record is kept so that properties can name the user;
      the client never receives it (it holds the password digest). */
  datatype LoginSuccess = LoginSuccess(accessToken: string, user: Users.User)

  /** The password library: `hash(password, rounds)` and
      `compare(password, digest)`. */
  datatype Hasher = Hasher(hash: (string, nat) -> string, compare: (string, string) -> bool)

  /** A digest always matches the password it was made from. */
  ghost predicate HashSound(h: Hasher)
  {
    forall p, rounds :: h.compare(p, h.hash(p, rounds))
  }

  /** The environment variables the handlers read. */
  datatype Env = Env(accessSecret: string, refreshSecret: string, nodeEnv: string)

  /** Options passed to `res.cookie` / `res.clearCookie`. */
  datatype CookieOptions = CookieOptions(httpOnly: bool, secure: bool, sameSite: string, maxAge: Option<int>)

  /** A cookie instruction the response carries. */
  datatype CookieOp =
    | SetCookie(name: string, value: string, options: CookieOptions)
    | ClearCookie(name: string, options: CookieOptions)

  const RefreshCookieName: string := "refreshToken"

  /** Seven days in milliseconds, the refresh cookie's `maxAge`. */
  const RefreshMaxAgeMs: int := 7 * 24 * 60 * 60 * 1000

  /** Cookie options of the refresh cookie: HTTP-only, secure exactly in
      production, the given `sameSite` spelling and `maxAge`. */
  function RefreshCookieOptions(env: Env, sameSite: string, maxAge: Option<int>): (o: CookieOptions)
    ensures o.httpOnly
    ensures o.secure <==> env.nodeEnv == "production"
    ensures o.sameSite == sameSite && o.maxAge == maxAge
  {
    CookieOptions(true, env.nodeEnv == "production", sameSite, maxAge)
  }

  /** The refresh cookie lives exactly as long as the refresh token it carries. */
  lemma CookieLifetimeMatchesToken()
    ensures RefreshMaxAgeMs == 604800000
    ensures RefreshMaxAgeMs == Seconds(SevenDays) * 1000
  {
  }
}
