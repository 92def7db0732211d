# imf-gadgets request handlers, modelled in Dafny

This project models the request-handling logic of a small Express inventory API.
The API tracks "gadgets" through four statuses: AVAILABLE, DEPLOYED, DECOMMISSIONED and DESTROYED.
It keeps user accounts with unique e-mail addresses.
It guards the gadget routes with short-lived signed access tokens; long-lived refresh tokens travel in a cookie.

Every handler is a pure function from its inputs to a reply.
The database is an explicit `map` from id to record.
The libraries the handlers call are function-valued parameters:
- the password hasher (`Tokens.Hasher`);
- the token signer and verifier (`Tokens.Jwt`);
- the codename generator;
- the database's id allocator.

A reply holds the status code the client receives.
Where the handler writes, the reply also holds the store as it is afterwards.
Auth replies hold the cookie instructions instead.

Modules:
- `Common`: optional fields, results, JavaScript truthiness of a string field (`undefined` and `""` are falsy), and `String.prototype.split` on one character with its inverse `Join`.
- `Gadgets`: create, list, update, decommission ("remove") and self-destruct (src/controllers/gadgetsController.ts).
- `EmailFormat`: the registration e-mail expression as a predicate, plus a decision procedure proved equal to it.
- `Users`: registration and update. Both preserve e-mail uniqueness (src/controllers/usersController.ts).
- `Tokens`: claims `{User:{id,email}}`, the signer and hasher interfaces, the environment, and refresh-cookie options.
- `Auth`: login, refresh and logout of the current controller (src/controllers/authController.ts).
- `LegacyAuth`: the earlier controller (controllers/authController.ts). It maps each failure to its own status code.
- `Gate`: the bearer-token middleware (src/middleware/verifyJWT.ts).
- `Sessions`: lemmas that chain requests together. Registration then login, login then the gate, and refresh then the gate.

Signing is assumed honest (`Tokens.Sound`) only as a hypothesis of the lemmas that need it.
A sound signer's token verifies under its own secret and under no other.
It is never empty and never contains a space.
Hashing is assumed sound (`Tokens.HashSound`) only in `Sessions.RegisterThenLogin`.

Points where the code's behaviour may surprise a reader, all of which the model keeps:
- The current controllers answer every failure with 400. Only the earlier auth controller uses 404, 401, 403 and 204.
- Decommission dates are not kept in step with status. An update can move a decommissioned gadget back to AVAILABLE and keep its date (`Gadgets.UpdateKeepsStaleDate`). Self-destruct never sets a date.
- Self-destruct checks that a confirmation code is present but never compares it with anything.
- A listing entry keys its success figure by the gadget's name, then writes the keys `id`, `Status` and `Decommissioned On`. A gadget with one of those names is listed without its name (`Gadgets.ListingOf`).

## Model

| member | source | states |
|---|---|---|
| Gadgets.ParseStatusIff | src/controllers/gadgetsController.ts:8-13 | a status string is accepted exactly when it spells one of the four statuses, and it reads back as that status |
| Gadgets.Names | src/controllers/gadgetsController.ts:23-24 | the generator's input holds the name of every gadget and nothing else |
| Gadgets.CreateGadget | src/controllers/gadgetsController.ts:18-47 | a falsy codename fails with the store unchanged; otherwise exactly one gadget is added under a fresh id, named by the codename, AVAILABLE and without a decommission date; nothing else changes |
| Gadgets.StatusFilter | src/controllers/gadgetsController.ts:55-62 | a falsy `status` query means no filter; otherwise the query must spell a status, and it becomes the filter |
| Gadgets.Matching | src/controllers/gadgetsController.ts:60-64 | with no filter every gadget is selected; with a filter, exactly the gadgets whose status equals it |
| Gadgets.ListingOf | src/controllers/gadgetsController.ts:71-77 | an entry carries the gadget's id, status and date; its name key survives exactly when the name is not one of the later literal keys `id`, `Status`, `Decommissioned On` |
| Gadgets.CollectListings | src/controllers/gadgetsController.ts:71-78 | the listing holds one entry per selected gadget (each the gadget's `ListingOf` entry) and nothing else |
| Gadgets.ListGadgets | src/controllers/gadgetsController.ts:53-86 | an unknown status or an empty selection fails with 400; otherwise 200 with exactly the selected gadgets; the store is never changed |
| Gadgets.UpdateGadget | src/controllers/gadgetsController.ts:98-136 | a falsy id or an unknown id fails with the store unchanged; falsy name or status fields keep the stored values; any status may be written; id and decommission date are untouched; other gadgets are unchanged |
| Gadgets.UpdateKeepsStaleDate | src/controllers/gadgetsController.ts:118-124 | a decommissioned gadget can be set back to AVAILABLE and keeps its decommission date |
| Gadgets.RemoveGadget | src/controllers/gadgetsController.ts:146-177 | an unknown id fails with the store unchanged; otherwise the gadget stays, keeps its name, becomes DECOMMISSIONED and is stamped with the current time; other gadgets are unchanged |
| Gadgets.RemoveRestamps | src/controllers/gadgetsController.ts:159-165 | decommissioning twice leaves the same store as once at the later time; only the date changes |
| Gadgets.SelfDestructAsWritten | src/controllers/gadgetsController.ts:190-226 | as written, an existing gadget becomes DESTROYED whether or not a code was sent; the client sees 400 without a code and 200 with one |
| Gadgets.MissingCodeStillDestroys | src/controllers/gadgetsController.ts:205-214 | a request without a confirmation code is answered 400 and still changes the store |
| Gadgets.SelfDestruct | src/controllers/gadgetsController.ts:195-214 | an unknown id or a missing code fails with the store unchanged; otherwise only the status changes, to DESTROYED, and the code's value plays no part |
| Gadgets.SelfDestructAgreesWithCode | src/controllers/gadgetsController.ts:205-209 | with a code, the returning handler and the written one give the same reply; without one, the returning handler leaves the store alone |
| EmailFormat.IndexOf | src/controllers/usersController.ts:27 | the result is the first position of the character, or -1 exactly when it is absent |
| EmailFormat.LastIndexOf | src/controllers/usersController.ts:27 | the result is the last position of the character, or -1 exactly when it is absent |
| EmailFormat.IsValidEmail | src/controllers/usersController.ts:27-29 | the check accepts a string exactly when some placement of `@` and a dot matches the expression: non-empty local part, non-empty domain, and a top-level label of two or more letters |
| EmailFormat.PlacementIsForced | src/controllers/usersController.ts:27 | any match of the expression uses the first `@` and the last dot |
| EmailFormat.Examples | src/controllers/usersController.ts:27 | `a@b.com` is accepted and `a@b` is refused |
| EmailFormat.DotlessDomainRefused | src/controllers/usersController.ts:27 | no placement of `@` and dot makes `a@b` match the expression |
| Users.FindByEmail | src/controllers/usersController.ts:31-33 | a look-up by address finds the record holding it, and finds one exactly when some user holds it |
| Users.CreateUser | src/controllers/usersController.ts:15-60 | checks run in order: missing field, malformed address, taken address; each failure leaves the store unchanged; success adds exactly one user whose password is the work-factor-10 digest; e-mail uniqueness is preserved |
| Users.UpdateUser | src/controllers/usersController.ts:66-115 | a missing field or unknown id fails with the store unchanged; an address held by another user fails; otherwise only that user's address and password digest change, with the id kept; e-mail uniqueness is preserved |
| Users.UpdateKeepsOwnEmail | src/controllers/usersController.ts:86-92 | a user may resubmit their own current address |
| Users.UpdateRefusesOthersEmail | src/controllers/usersController.ts:86-92 | an address held by a different user is refused with the store unchanged |
| Users.UpdateSkipsFormatCheck | src/controllers/usersController.ts:74-102 | update stores an address that registration would refuse |
| Tokens.RefreshCookieOptions | src/controllers/authController.ts:45-50 | the refresh cookie is HTTP-only, and it is secure exactly when NODE_ENV is `production` |
| Tokens.CookieLifetimeMatchesToken | src/controllers/authController.ts:43-49 | the cookie's maxAge is 604800000 ms, the refresh token's seven days |
| Auth.Login | src/controllers/authController.ts:11-62 | checks run in order: missing field (CredentialsRequired), unknown address (UserNotFound), wrong password (WrongPassword), and every failure is 400 with no cookie; on success both tokens are signed over the found user's id and address, the access token with the access secret for 1h and the refresh token with the refresh secret for 7d; exactly one `refreshToken` cookie is set, httpOnly, sameSite `none`, secure only in production, maxAge 604800000 |
| Auth.RefreshAsWritten | src/controllers/authController.ts:67-112 | as written, with no cookie the reply is 400; with any truthy cookie it is 200 with a null token |
| Auth.RefreshRaceAcceptsForgedCookie | src/controllers/authController.ts:79-111 | a cookie that fails verification still gets 200 as written, where the awaited flow answers Forbidden |
| Auth.Refresh | src/controllers/authController.ts:73-101 | checks run in order: no cookie (Unauthorized), failed verification under the refresh secret (Forbidden), address no longer held (Unauthorized); success exactly when all three pass; on success a 1h token is signed over the decoded id and address with the refresh secret |
| Auth.RefreshSignedWith | src/controllers/authController.ts:73-101 | the awaited refresh for a given signing secret: no cookie (Unauthorized), failed verification under the refresh secret (Forbidden), address no longer held (Unauthorized), success exactly when all three pass, with a 1h token over the decoded id and address signed with that secret |
| Auth.RefreshFixed | src/controllers/authController.ts:94-101 | the same decisions as the awaited refresh, but the new token is signed with the access secret |
| Auth.Logout | src/controllers/authController.ts:117-138 | with no cookie the call fails with "No content" and no cookie instruction; otherwise exactly the refresh cookie is cleared, with the login flags and no maxAge, and the call succeeds |
| Auth.LogoutClearsLoginCookie | src/controllers/authController.ts:121-137 | the cookie logout clears has the name and options of the cookie login set, except for maxAge |
| LegacyAuth.Login | controllers/authController.ts:9-50 | a missing field gives 400, an unknown address 404, a wrong password 401; on success both tokens are signed with the refresh secret over the same claims, for 1h and 7d |
| LegacyAuth.WrongPasswordIsNotNotFound | controllers/authController.ts:24-27 | an existing address with a wrong password gives 401, never 404 |
| LegacyAuth.Refresh | controllers/authController.ts:55-90 | no cookie gives 401, failed verification 403, a vanished user 401; otherwise 200 with a 1h token over the decoded id and address |
| LegacyAuth.Logout | controllers/authController.ts:95-109 | with no cookie the reply is 204 and nothing is cleared; otherwise the refresh cookie is cleared and the reply is 200 |
| LegacyAuth.LogoutClearsLoginCookie | controllers/authController.ts:102-106 | logging out with the cookie the earlier login set answers 200 and clears a cookie of the same name and options, without maxAge |
| Common.Split | src/middleware/verifyJWT.ts:18 | splitting yields one more part than there are separators, and no part contains a separator |
| Common.JoinSplit | src/middleware/verifyJWT.ts:18 | joining the parts with the separator gives back the original string |
| Common.SecondPartAfterHead | src/middleware/verifyJWT.ts:18 | after a separator-free head and one separator, the second part runs up to the next separator |
| Gate.FirstValue | src/middleware/verifyJWT.ts:13 | an array header contributes its first element, or nothing when it is empty |
| Gate.SelectedHeader | src/middleware/verifyJWT.ts:12-13 | a truthy `authorization` header is used; otherwise `Authorization` is used |
| Gate.LowerHeaderWins | src/middleware/verifyJWT.ts:12 | a non-empty lower-case header wins; an empty one gives way to the capitalised one |
| Gate.BearerToken | src/middleware/verifyJWT.ts:18 | the token is the text after `Bearer ` up to the next space, and holds no space |
| Gate.TokenRoundTrip | src/middleware/verifyJWT.ts:18 | the token read from `Bearer ` followed by a space-free token is that token |
| Gate.VerifyJwt | src/middleware/verifyJWT.ts:11-27 | an absent header, or one without the exact `Bearer ` prefix, gives 401; a token that fails verification under the access secret gives 403; otherwise `next` runs once, with the decoded claims as the user |
| Gate.LowercaseBearerRefused | src/middleware/verifyJWT.ts:14-16 | the prefix check is case-sensitive and refuses before any verification |
| Gate.AcceptsAccessToken | src/middleware/verifyJWT.ts:19-25 | a token signed with the access secret passes, carrying its claims |
| Gate.RejectsOtherSecret | src/middleware/verifyJWT.ts:19-22 | a token signed with any other secret gets 403 |
| Sessions.RegisterThenLogin | src/controllers/authController.ts:21-32 | registering and then logging in with the same credentials succeeds, for the new user |
| Sessions.LoginTokenPassesGate | src/controllers/authController.ts:35-42 | the access token from login passes the gate with the user's id and address |
| Sessions.LoginCookieRefreshes | src/controllers/authController.ts:73-101 | refresh accepts the cookie login set; with the fix, the new token passes the gate for the same user |
| Sessions.RefreshedTokenRejected | src/controllers/authController.ts:101 | when the two secrets differ, the gate refuses the token refresh issues |
| Sessions.FixedRefreshTokenAccepted | src/controllers/authController.ts:94-101 | the corrected refresh's token passes the gate, carrying the refresh token's claims |
| Sessions.LegacyLoginCookieRefreshes | controllers/authController.ts:37-89 | the earlier refresh accepts the cookie the earlier login set while the user holds the address, and answers 200 with a new token over the same claims, secret and lifetime as login's access token, which the gate refuses with 403 when the two secrets differ |
| Sessions.LegacyAccessTokenRejected | controllers/authController.ts:37-38 | the earlier controller's access token is signed with the refresh secret, so with distinct secrets the gate refuses it |

## Left out

- Database persistence (Prisma): replaced by maps whose rows sit under their own ids. The only write failure modelled is an insert under an id already in use. Every other database fault is outside the model.
- Users.FindByEmail: needs e-mail uniqueness of the table as a precondition, because a look-up by a unique key is only defined when the key is unique. Login inherits this precondition.
- Password hashing (bcrypt): a hash/compare pair passed in. The random salt is folded into the hash function.
- Token signing and verification (jsonwebtoken): a sign/verify pair passed in. Expiry clocks are not modelled, so `Tokens.Sound` describes verification within a token's lifetime. Two logins giving distinct tokens (issue times) is not modelled either.
- The codename generator: a function of the set of existing names. The order and repetitions of the name list it receives are abstracted away.
- The cosmetic "success probability" in listings: a floating-point random number, for display only.
- Gadgets.ListGadgets: does not fix the order of the listing, because the database's row order is not visible to the handler.
- Error message text: the current controllers' messages are reduced to error tags. The earlier auth controller keeps its failure messages. Success bodies are reduced too. Both logins answer with a message string that carries the address and the access token, followed by the user record interpolated as `[object Object]`. The model returns `Tokens.LoginSuccess`, whose `user` field is the found record, kept so that properties can name the user. The client never receives that record. The logout messages become an empty value.
- Request bodies and query values: a field's `None` means "absent from a JSON body that was sent", or "no such query parameter". JSON values of other types are not modelled. Neither is a repeated query parameter: Express 5's query parser turns a repeated `?status=` into an array, which Prisma rejects at src/controllers/gadgetsController.ts:62, so that request answers 400.
- Requests with no JSON body at all: the catch-all route `'/{*any}'` in src/index.ts is Express 5 syntax, and under Express 5 `express.json()` leaves `req.body` undefined when no JSON body is sent. Destructuring it then throws. The current login destructures before its `try` (src/controllers/authController.ts:13), so the rejection goes to Express's error handler and the answer is 500. Self-destruct destructures inside its `try` (src/controllers/gadgetsController.ts:192), so the answer is 400 and nothing is written. The model does not cover this case.
- Replies sent after the first one: they fail with "headers already sent". Express 5 forwards the handler's rejected promise to its error handler, which can no longer answer. The model records only the first reply and the final store.
- Cookie reading: modelled as an optional cookie value, as if a cookie parser filled `req.cookies`. src/index.ts installs no cookie parser. Without one, the current controller reads `req.cookies` as undefined and sees no cookie. The earlier controller destructures `req.cookies` itself (controllers/authController.ts:56 and :96), which throws a TypeError. It has no try/catch, so its promise rejects and Express 5 answers 500 through its default error handler. With a parser, the earlier controller reads a cookie named `cookies` and finds no `refreshToken` field in it.
- Secrets: `Tokens.Env` takes both secrets as given strings, and `Tokens.Sound` holds for any secret, the empty one included. jsonwebtoken throws for an undefined or empty secret. The current login would then answer 400, since the signing at src/controllers/authController.ts:42-43 is inside its `try`. The earlier login signs outside any `try`, so it would answer 500 through Express 5's default error handler.
- Auth.RefreshAsWritten: records only the reply. It does not model the unhandled rejection that the discarded callback promise raises for a forged cookie (src/controllers/authController.ts:81) or a vanished user (:91), which under Node's default `--unhandled-rejections=throw` ends the process after the 200 is written.
- Auth.Refresh: the decoded id is not compared with the id of the user found by address, and the model keeps that.
- Concurrency between requests: last-write-wins at the database is not modelled.
- The earlier gadget and user controllers: superseded, and they do not compile as written.
- middleware/verifyJWT.ts: the same as the current gate except for array headers, which `Gate` covers.
- Request logging, credential-file bootstrap, routing, the 404 responder and environment typing: plumbing with no decisions to model.

## Findings

| source | as written | input that shows it | evidently intended | confidence | as-written member | corrected member |
|---|---|---|---|---|---|---|
| src/controllers/gadgetsController.ts:201-207 | the not-found and missing-code guards send 400 but do not return, so the DESTROYED write still runs | an existing gadget id and a JSON body without `confirmationCode` | return after the 400, leaving the gadget as it was | high, not executed | Gadgets.MissingCodeStillDestroys | Gadgets.SelfDestruct |
| src/controllers/authController.ts:101 | the reissued access token is signed with REFRESH_TOKEN_SECRET, but the gate verifies with ACCESS_TOKEN_SECRET | none reaches a client today: the race at lines 79-111 answers `{ accessToken: null }` before this token exists. Once verification is awaited, any successful refresh with distinct secrets yields a token the gate refuses with 403. The earlier controller, whose callback sends the reply itself, shows the same secret choice today (controllers/authController.ts:86-88, `Sessions.LegacyLoginCookieRefreshes`) | sign with ACCESS_TOKEN_SECRET, as login does | high, not executed | Sessions.RefreshedTokenRejected | Sessions.FixedRefreshTokenAccepted |
| src/controllers/authController.ts:79-111 | the verification callback is not awaited; its throws do not reach the handler's catch, and the reply at line 111 goes out before the token is assigned; the callback's rejected promise is discarded, so a forged cookie or a vanished user leaves an unhandled rejection, which under Node's default mode ends the process after the 200 is written | a non-empty cookie holding a forged token: the reply is 200 with a null token | await verification, then answer 403, 400 or 200 with the new token | medium, not executed | Auth.RefreshRaceAcceptsForgedCookie | Auth.Refresh |
