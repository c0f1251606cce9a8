# N-auth session control, modelled in Dafny

N-auth is a demo "N-device login" web application: a FastAPI backend that
keeps a table of user sessions and a Next.js frontend that asks the backend
whether its session cookie is still good. This project models the decision
logic that is actually present in the repository and proves properties of it:

- **`/session/validate`** (`SessionEndpoints`). The handler reads the
  `session_id` cookie and looks up the first row with that id. It answers along
  a strict precedence chain: no cookie (401), no row, forced logout, lapsed
  (inactive or `expires_at <= now`), valid. It then updates the row in place: a
  lapsed row is marked inactive, and a valid row gets `last_active := now`. The
  row is a class with mutable fields. The method `ValidateSession` is proved
  against the pure functions `Validation` and `RowAfter`, and it touches no
  other row.
- **`/logout/force` and `/logout`** (`SessionEndpoints`). These map their
  helpers' results onto status codes and bodies. The helpers' results are
  inputs.
- **Bearer-token handling** (`TokenAuth`). Clean-up removes one leading
  `"Bearer "` (the header form of section 2.1 of RFC 6750, matched
  case-sensitively). It then strips white space (Python's `str.isspace` set),
  then `'`, then `"`. The shape check needs exactly three `.`-separated parts,
  the JWS Compact Serialization of section 7.1 of RFC 7515. Then come the
  first-match key search (`get_public_key`, a loop) and the claims with their
  `permissions` default. The credentials object is rewritten in place, as the
  source does. Header decoding and signature verification are function-valued
  parameters.
- **The client's auth state** (`AuthContext`). It is a class with
  `isAuthenticated` and `loading`, driven by `checkAuth` and `logout`. Each
  fetch outcome is an input. A pure transition function `Step` and its fold
  `Run` carry the lemmas over whole event sequences.
- **The callback page's `login()`** (`Callback`). It performs validate, then
  check, with early exits. It ends in a pushed route or in `errorData`, and it
  records the requests it issued. The file also holds the pluralisation of the
  device card.
- **The cross-file point** (`Protocol`). `/session/validate` answers 200 for
  "not found" and "forced logout", and the intended handler answers 200 for
  "expired" too. The client reads only `res.ok`. So a session the backend
  calls invalid still leaves the client authenticated, and the callback page
  still goes to the dashboard without submitting the login check. As written,
  the expired branch fails with a server error instead (see "## Findings"), so
  there an expired session does read as logged out on the client.

Modelling assumptions:

- `is_active` is a boolean. backend/core/database/models.py:18 declares it as
  a String defaulting to `"true"`. With that column, `not session.is_active`
  is false for `"false"` too: only a NULL or empty string reads as inactive,
  and no non-empty value does.
- The row has `closed_reason`, `force_logged_by`, `force_logged_at` and
  `force_logout_message`. main.py:164-173 reads them, but that model file does
  not declare them.
- `expires_at` is always set.
- Times are integers (`Timestamp`), and `force_logged_at.isoformat()` is the
  timestamp itself.
- A forced-logout row with no `force_logged_at` makes `isoformat` raise. This
  is modelled as a 500 `InternalError`.

## Model

| member | source | states |
|---|---|---|
| `SessionEndpoints.FirstWithId` | backend/main.py:152-154 | the query's `.first()`: the result is a row with that id and no earlier row has it; null exactly when no row has the id |
| `SessionEndpoints.Target` | backend/main.py:146-154 | without a (non-empty) cookie no row is read; otherwise the row read is the first stored row with the cookie's id (`FirstWithId`) |
| `SessionEndpoints.Validation` | backend/main.py:143-199 | status 401 with "No session cookie" exactly when the cookie is missing or empty; otherwise 200 for every outcome (save the unrenderable forced logout); not found exactly when there is no row; force_logged_out with the row's by/at/message details exactly for inactive rows closed by "force_logout", checked before expiry; session_expired exactly when not forced out and inactive or `expires_at <= now` (the boundary is expired); valid exactly when active and `now < expires_at`, carrying the row's session and user id; the answer clears the `session_id` cookie exactly when it is session_expired; a failed handler carries status 500 |
| `SessionEndpoints.RowAfter` | backend/main.py:180-190 | only `is_active` or `last_active` can change; `is_active` stays true exactly when the row was active and unexpired; `last_active` becomes `now` exactly when the session is valid; a forced-out row is untouched |
| `SessionEndpoints.ValidateSession` | backend/main.py:143-199 | the answer is `Validation` of the cookie and the row as it was; that row becomes `RowAfter` of its old contents; every other row is unchanged |
| `SessionEndpoints.RevalidateAtSameTime` | backend/main.py:189-198 | refreshing `last_active` does not change the answer for a valid session |
| `SessionEndpoints.NeverRevived` | backend/main.py:180-183 | once a session is answered as not valid, no later validation of the updated row answers valid |
| `SessionEndpoints.ValidationAsWritten` | backend/main.py:180-187 | the handler as written never answers session_expired and never clears the cookie; it answers valid exactly when the intended handler does; it fails with a server error exactly on the lapsed branch or the unrenderable forced logout; off the lapsed branch it equals `Validation`; its failures carry status 500 |
| `SessionEndpoints.RowAfterAsWritten` | backend/main.py:146-190 | as written, the stored row is either unchanged or `RowAfter`; it is unchanged without a cookie, and with one it differs from `RowAfter` exactly for an active row past its expiry (the commit is skipped); no request ever changes `is_active`, and `last_active` moves as in `RowAfter` |
| `SessionEndpoints.AsWrittenExpiredStaysActive` | backend/main.py:180-183 | as written, an active row past its expiry stays active in the store, and every later request with it fails with the same server error |
| `SessionEndpoints.ExpiredBranchFails` | backend/main.py:182 | a concrete active row with `expires_at == now`: as written the answer is 500 and the row stays as it was; as intended it is 200 session_expired with the cookie cleared, and the row becomes inactive |
| `SessionEndpoints.ForceLogoutReply` | backend/main.py:108-139 | a returned result is passed through with 200 exactly when `success`, else 400; an HTTPException becomes its own status with `{success: false, message: detail}`; other exceptions are not caught |
| `SessionEndpoints.LogoutReplyFor` | backend/main.py:80-97 | a missing or empty cookie returns (does not raise) a 401 "No session found" object; otherwise a successful helper gives `{success: true}` with the cookie deleted, an unsuccessful one raises 400 "LogoutFailed", and an exception from the helper propagates uncaught |
| `TokenAuth.LeadCount` | backend/core/auth.py:34 | the leading run of the class: every character before it is of the class and the next one is not |
| `TokenAuth.TrailCount` | backend/core/auth.py:34 | the trailing run of the class: every character in it is of the class and the one before it is not |
| `TokenAuth.Strip` | backend/core/auth.py:34 | the result is no longer than the input and neither begins nor ends with a character of the class |
| `TokenAuth.StripRemovesOnlyClass` | backend/core/auth.py:34 | the result is the part of the input right after its leading run, and every character removed on either side is of the class |
| `TokenAuth.StripUnchanged` | backend/core/auth.py:34 | a string that neither begins nor ends with the class is returned unchanged |
| `TokenAuth.StripIdempotent` | backend/core/auth.py:34 | stripping a stripped string changes nothing |
| `TokenAuth.StripEnclosed` | backend/core/auth.py:34 | one character of the class on each side is removed and what it enclosed is kept |
| `TokenAuth.RemoveBearer` | backend/core/auth.py:31-32 | the input starts with "Bearer " exactly when the prefix plus the result gives the input back; otherwise the input is unchanged |
| `TokenAuth.RemoveBearerOnce` | backend/core/auth.py:31-32 | the prefix is removed once: "Bearer Bearer t" keeps one "Bearer " |
| `TokenAuth.Clean` | backend/core/auth.py:31-34 | the cleaned token never begins or ends with a double quote and is no longer than the input |
| `TokenAuth.StripPadded` | backend/core/auth.py:34 | stripping white space or one kind of quote from a part of a string, outside which only padding lies, leaves a smaller such part |
| `TokenAuth.CleanRemovesOnlyPadding` | backend/core/auth.py:31-34 | over all inputs, clean-up removes the "Bearer " prefix and otherwise only white space and quotes: the result is a contiguous part of the unprefixed string, and every character of it outside the result is white space, `'` or `"` |
| `TokenAuth.CleanKeepsInnerSingleQuote` | backend/core/auth.py:34 | each quote kind is stripped once, in order: a single-quoted token inside double quotes keeps its single quotes |
| `TokenAuth.Split` | backend/core/auth.py:37 | `split(".")` yields one more part than there are dots, and no part contains a dot |
| `TokenAuth.JoinSplit` | backend/core/auth.py:37 | joining the parts with "." gives the token back |
| `TokenAuth.ThreeParts` | backend/core/auth.py:37-40 | the shape check passes exactly when the token has exactly two dots |
| `TokenAuth.CountIsMultiplicity` | backend/core/auth.py:37 | the recursive dot count is the multiplicity of the character in the string |
| `TokenAuth.ThreePartsIffTwoDots` | backend/core/auth.py:37-40 | the shape check passes exactly when the token's multiset of characters holds `.` exactly twice |
| `TokenAuth.FindKey` | backend/core/auth.py:19-25 | a found key is the first entry whose kid matches; a missing kid before any match raises KeyError; not found exactly when no entry matches |
| `TokenAuth.FindKeyFirst` | backend/core/auth.py:21-23 | whenever entry i is the first match, the search returns entry i |
| `TokenAuth.GetPublicKey` | backend/core/auth.py:19-25 | the loop with early return computes `FindKey` |
| `TokenAuth.ClaimsOf` | backend/core/auth.py:57-59 | claims carry `payload["sub"]` and the payload's permissions, defaulting to the empty list; a missing sub raises KeyError |
| `TokenAuth.CheckToken` | backend/core/auth.py:37-66 | ValueError "Invalid JWT format" exactly when the dot count is not two; accepted exactly when the header names a key found in the set and the decoded payload has a sub; 401 exactly when the shape is right and the header decode or the verified decode fails; a 401 carries the message of the library error that caused it (`str(error)`); a header or key entry without `kid` escapes as KeyError("kid"), a kid not in the set as "Public key not Found", a payload without `sub` as KeyError("sub") |
| `TokenAuth.MalformedIsNot401` | backend/core/auth.py:39-40 | a malformed token escapes as ValueError and is never converted to a 401 |
| `TokenAuth.CheckCleaned` | backend/core/auth.py:37-66 | the statement sequence after clean-up, with the key-search loop, computes `CheckToken` |
| `TokenAuth.ValidateToken` | backend/core/auth.py:27-66 | the credentials field ends as `Clean` of its old value, whatever the outcome, and the outcome is `CheckToken` of that cleaned token |
| `AuthContext.Step` | frontend/context/AuthContext.jsx:17-50 | checkAuth always clears `loading` and sets `isAuthenticated` to `res.ok`, or to false when the fetch throws; logout never touches `loading`, clears `isAuthenticated` whenever its fetch resolves, and changes nothing when it throws |
| `AuthContext.LoadingUntilFirstCheck` | frontend/context/AuthContext.jsx:15-33 | after any sequence of transitions `loading` is true exactly when it was true before and no checkAuth ran |
| `AuthContext.LoadingNeverReturns` | frontend/context/AuthContext.jsx:31-33 | once false, `loading` stays false |
| `AuthContext.AuthenticatedOnlyAfterOkCheck` | frontend/context/AuthContext.jsx:14-30 | the client is authenticated only if it already was, or some checkAuth received an ok response |
| `AuthContext.AuthProvider.constructor` | frontend/context/AuthContext.jsx:14-15 | the initial state is not authenticated and loading |
| `AuthContext.AuthProvider.CheckAuth` | frontend/context/AuthContext.jsx:17-34 | the fields become `Step` of their old values under checkAuth |
| `AuthContext.AuthProvider.Logout` | frontend/context/AuthContext.jsx:40-50 | only `isAuthenticated` may change, and the fields become `Step` under logout |
| `AuthContext.Mount` | frontend/context/AuthContext.jsx:36-38 | mounting runs checkAuth once, after which `loading` is false |
| `Callback.CheckBody` | frontend/app/callback/page.jsx:30-33 | the check body has exactly the keys `login_id` and `device_info`: no fingerprint and no device name |
| `Callback.DeniedData` | frontend/app/callback/page.jsx:38-43 | a truthy `err.detail` becomes the error data, otherwise `{message: "Login denied"}`; a body that is not JSON, or is null, gives "Unexpected error occurred" |
| `Callback.LoginFlow` | frontend/app/callback/page.jsx:14-44 | without a login id it goes home with no requests; it goes to the dashboard exactly when validate is ok, or when validate resolves not ok and check is ok; an ok validate never sends the check; the only check request is the second one and carries `CheckBody`; exactly one of "route pushed" and "error data set" happens; with a login id the requests are the validate request, followed by the check request exactly when validate resolved not ok; the error data is `{message: "Unexpected error occurred"}` when either fetch throws, and `DeniedData` of the check body when check resolves not ok |
| `Callback.CallbackPage.constructor` | frontend/app/callback/page.jsx:11 | `errorData` starts as null, with nothing pushed or sent |
| `Callback.CallbackPage.Login` | frontend/app/callback/page.jsx:14-44 | the awaited steps with early returns append exactly `LoginFlow`'s requests and route, and set `errorData` only where `LoginFlow` does |
| `Callback.SessionsLabel` | frontend/app/callback/page.jsx:82 | the word is "session" or "sessions", and it is "sessions" exactly when `session_count > 1` |
| `Protocol.ClientTrustsStatusOnly` | frontend/context/AuthContext.jsx:27 | after checkAuth against `/session/validate`, the client is authenticated exactly when a cookie was sent and the handler did not fail, whatever the session's validity |
| `Protocol.InvalidSessionAuthenticates` | backend/main.py:156-187 | with the intended handler, not found, force-logged-out and expired sessions are never valid, yet each leaves the client authenticated (as written, the expired case is `AsWrittenExpiryLogsOut`) |
| `Protocol.CallbackSkipsCheckOnInvalidSession` | frontend/app/callback/page.jsx:19-24 | for those three outcomes the callback goes to the dashboard and never submits `/session/check` |
| `Protocol.AsWrittenExpiryLogsOut` | backend/main.py:180-187 | with the handler as written, an expired session's 500 leaves the client unauthenticated |
| `Protocol.AsWrittenExpiryCallbackChecks` | frontend/app/callback/page.jsx:19-37 | as written, the expired session's failed validation is not ok, so the callback submits `/session/check` and reaches the dashboard exactly when the check is ok |
| `Protocol.CheckAuthRoundTrip` | frontend/context/AuthContext.jsx:17-34 | one checkAuth against the stored rows: the answer is `Validation`, the row read becomes `RowAfter` of its old contents and every other row is unchanged, `loading` ends false, and the client is authenticated exactly when a cookie was sent and the handler did not fail |

## Left out

- `check_session`, `forced_logout`, `logout_session`, `process_login_token` and `get_current_user` are imported at backend/main.py:17, but backend/core/auth.py does not define them. The device-limit check-and-create, the revocation of other devices' sessions and the current-user lookup are therefore not part of this model. `forced_logout` and `logout_session` appear only through their results.
- `post_check_session` (backend/main.py:200-207) only forwards to `check_session`. It returns nothing. It also reads `payload.device_name`, which `LoginRequest` (backend/core/schemas.py:9-12) does not declare; that class requires a `device_fingerprint` that the callback page does not send.
- The OAuth redirect and code exchange (backend/main.py:41-76), `/protected` and `/profile` are network I/O or pass-throughs of absent helpers.
- The JWKS download and the JWT library (`get_unverified_header`, `jwt.decode` with signature, audience and issuer checks) are foreign code. The key list and the two library calls are parameters.
- The `HTTPBearer` dependency that splits the `Authorization` header before `validate_token` runs is not modelled. The credentials string is an input.
- Database engine, sessions, `db.commit()` and rollback: the model's row updates stand for the committed state. CORS setup, configuration files and all `print` and `console.error` calls are left out.
- Rendering of every page, the navigation bar and the layout are left out; only the device-card wording at frontend/app/callback/page.jsx:82 is modelled.
- Validation: assumes `expires_at` is always set. A null column would make the comparison raise, and that case is not modelled.
- LogoutReplyFor: records that the handler returns an HTTPException object without a cookie. What the framework then serialises and which status it sends are not modelled.
- Callback.LoginFlow: models one run of `login()`. The effect re-runs when `router` or `searchParams` change; each re-run is another call of `CallbackPage.Login`.
- JavaScript numbers are integers in the model, so NaN truthiness is not covered.
- Protocol.Seen: a handler that fails is taken to reach the browser as a status-500 response. The framework's error middleware may answer without the CORS headers, so the cross-origin fetch would reject instead; `checkAuth` ends unauthenticated under either reading. Under the 500 reading (the one modelled), `login()` finds validate not ok, submits `/session/check`, and may still reach the dashboard (`AsWrittenExpiryCallbackChecks`); under a rejection it would instead show "Unexpected error occurred" and send no check request. The model does not show the rejection.
- SessionEndpoints.ForceResult: the helper's dictionary is assumed to carry a boolean `success`. A dictionary without it raises a KeyError at backend/main.py:124 that the `except HTTPException` does not catch, and a non-boolean value would be decided by Python truthiness; neither is modelled. `ForceLogoutRequest`, imported at backend/main.py:16, is defined in neither backend/core/schemas.py nor backend/core/models.py, so the request body's validation is not part of this model.
- TokenAuth.Payload: the payload's members are assumed well typed. A `permissions` that is present but null (which `.get` returns as None), or a `sub` that is not a string, makes the `UserClaims` construction fail validation; that error is not modelled.

## Findings

| source | as written | input that shows it | evidently intended | confidence | as-written member | corrected member |
|---|---|---|---|---|---|---|
| backend/main.py:182 | the lapsed branch calls `request.delete_cookie`, which the request object does not have, so an exception escapes before `db.commit()` | an active row with `expires_at == now` (`ExpiredBranchFails`) | answer 200 `session_expired`, persist `is_active = false` and clear the cookie on the response | high; not executed | `SessionEndpoints.ValidationAsWritten` | `SessionEndpoints.Validation` |
