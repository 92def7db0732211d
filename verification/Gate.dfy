/** The bearer-token middleware that guards the gadget routes and logout: picks
    the authorization header, insists on the `Bearer ` prefix, takes the token
    after the first space and lets the request through only when the token
    verifies under the access secret. */
module Gate {
  import opened Common
  import opened Tokens

  /** A header value as the middleware's code declares it, `string | string[]`.
      Node itself lower-cases header names and keeps only the first of repeated
      `authorization` headers, so `Many` and the capitalised field are never filled by a
      real request; the model keeps them because the code handles them. */
  datatype HeaderValue = Single(text: string) | Many(items: seq<string>)

  /** `req.headers.authorization` and `req.headers.Authorization`. */
  datatype AuthHeaders = AuthHeaders(lower: Option<HeaderValue>, upper: Option<HeaderValue>)

  /** JavaScript truthiness of a header: a non-empty string, or any array. */
  predicate HeaderTruthy(h: Option<HeaderValue>)
  {
    h.Some? && (h.value.Many? || h.value.text != "")
  }

  /** `Array.isArray(v) ? v[0] : v`: an array contributes only its first element. */
  function FirstValue(hv: HeaderValue): (v: Option<string>)
    ensures hv.Single? ==> v == Some(hv.text)
    ensures hv.Many? ==> (v.Some? <==> |hv.items| > 0) && (v.Some? ==> v.value == hv.items[0])
  {
    match hv
    case Single(t) => Some(t)
    case Many(items) => if |items| > 0 then Some(items[0]) else None
  }

  /** `authorization || Authorization`, then the first element of an array. */
  function SelectedHeader(h: AuthHeaders): (v: Option<string>)
    ensures HeaderTruthy(h.lower) ==> v == FirstValue(h.lower.value)
    ensures !HeaderTruthy(h.lower) && h.upper.None? ==> v == None
    ensures !HeaderTruthy(h.lower) && h.upper.Some? ==> v == FirstValue(h.upper.value)
  {
    var chosen := if HeaderTruthy(h.lower) then h.lower else h.upper;
    match chosen
    case None => None
    case Some(hv) => FirstValue(hv)
  }

  const BearerPrefix: string := "Bearer "

  /** `value.split(' ')[1]`: the text between the first and the second space. */
  function BearerToken(value: string): (token: string)
    requires BearerPrefix <= value
    ensures ' ' !in token
    ensures token == PrefixBefore(value[|BearerPrefix|..], ' ')
  {
    assert value[6] == ' ';
    assert value == "Bearer" + [' '] + value[|BearerPrefix|..];
    SecondPartAfterHead("Bearer", value[|BearerPrefix|..], ' ');
    Split(value, ' ')[1]
  }

  /** What the middleware does with the request: answer with a status, or call
      `next` once with `req.user` set to the decoded claims. */
  datatype Outcome = Reject(code: nat) | Next(user: Claims)

  /** The whole middleware: 401 unless the selected header starts with exactly
      `Bearer `, then 403 unless its token verifies under the access secret, then
      `next` with the token's claims. */
  function VerifyJwt(h: AuthHeaders, jwt: Jwt, env: Env): (o: Outcome)
    ensures SelectedHeader(h).None? ==> o == Reject(Unauthorized401)
    ensures SelectedHeader(h).Some? && !(BearerPrefix <= SelectedHeader(h).value) ==> o == Reject(Unauthorized401)
    ensures SelectedHeader(h).Some? && BearerPrefix <= SelectedHeader(h).value ==>
      var decoded := jwt.verify(BearerToken(SelectedHeader(h).value), env.accessSecret);
      && (decoded.None? ==> o == Reject(Forbidden403))
      && (decoded.Some? ==> o == Next(decoded.value))
  {
    match SelectedHeader(h)
    case None => Reject(Unauthorized401)
    case Some(value) =>
      if !(BearerPrefix <= value) then Reject(Unauthorized401)
      else match jwt.verify(BearerToken(value), env.accessSecret)
        case None => Reject(Forbidden403)
        case Some(claims) => Next(claims)
  }

  /** The header a client sends for `token`. */
  function BearerHeader(token: string): AuthHeaders
  {
    AuthHeaders(Some(Single(BearerPrefix + token)), None)
  }

  /** For a header made of the prefix and a space-free token, the token is the
      whole of the rest of the header. */
  lemma TokenRoundTrip(token: string)
    requires ' ' !in token
    ensures BearerToken(BearerPrefix + token) == token
  {
    var v := BearerPrefix + token;
    assert v[|BearerPrefix|..] == token;
    PrefixBeforeWhole(token, ' ');
  }

  /** A sound signer's access token gets through the gate, carrying its claims. */
  lemma AcceptsAccessToken(c: Claims, l: Lifetime, jwt: Jwt, env: Env)
    requires Sound(jwt)
    ensures VerifyJwt(BearerHeader(jwt.sign(c, env.accessSecret, l)), jwt, env) == Next(c)
  {
    TokenRoundTrip(jwt.sign(c, env.accessSecret, l));
  }

  /** A token signed under any other secret is refused with 403. */
  lemma RejectsOtherSecret(c: Claims, secret: string, l: Lifetime, jwt: Jwt, env: Env)
    requires Sound(jwt) && secret != env.accessSecret
    ensures VerifyJwt(BearerHeader(jwt.sign(c, secret, l)), jwt, env) == Reject(Forbidden403)
  {
    TokenRoundTrip(jwt.sign(c, secret, l));
  }

  /** The prefix is case-sensitive, and a header without it is refused before any
      verification. */
  lemma LowercaseBearerRefused(token: string, jwt: Jwt, env: Env)
    ensures VerifyJwt(AuthHeaders(Some(Single("bearer " + token)), None), jwt, env) == Reject(Unauthorized401)
  {
    var v := "bearer " + token;
    assert v[0] != BearerPrefix[0];
  }

  /** A truthy lower-case header wins over the capitalised one; an empty one does
      not. */
  lemma LowerHeaderWins(a: string, b: string)
    ensures a != "" ==> SelectedHeader(AuthHeaders(Some(Single(a)), Some(Single(b)))) == Some(a)
    ensures SelectedHeader(AuthHeaders(Some(Single("")), Some(Single(b)))) == Some(b)
  {
  }
}
