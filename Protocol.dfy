/**
 * How the two halves meet. `/session/validate` answers status 200 for the
 * invalid outcomes too (not found and forced logout; expired as well in the
 * intended handler), while the client looks only at `res.ok`: `checkAuth`
 * copies it into `isAuthenticated` and the callback page goes to the
 * dashboard on it. So a session the backend reports as invalid still counts
 * as authenticated on the client.
 */
module Protocol {
  import opened Wrappers
  import Fetch
  import SessionEndpoints
  import AuthContext
  import Callback

  /**
   * The fetch outcome for a validation answer, taken as a response with the
   * answer's status and any JSON body. A handler that fails is taken to be
   * seen as a status-500 response.
   */
  function Seen(reply: SessionEndpoints.HttpReply, body: Fetch.Body): (o: Fetch.Outcome) {
    Fetch.Resolved(Fetch.Response(reply.status, body))
  }

  /**
   * After `checkAuth`, the client is authenticated exactly when the request
   * carried a cookie and the handler did not fail, whether or not the session
   * it named is valid.
   */
  lemma ClientTrustsStatusOnly(
    cookie: Option<string>, row: Option<SessionEndpoints.SessionRow>, now: SessionEndpoints.Timestamp,
    body: Fetch.Body, s: AuthContext.AuthState)
    ensures var reply := SessionEndpoints.Validation(cookie, row, now);
      (AuthContext.Step(s, AuthContext.CheckAuth(Seen(reply, body))).isAuthenticated
       <==> !SessionEndpoints.NoCookie(cookie) && !reply.body.InternalError?)
  {
  }

  /** With the intended handler, the three invalid outcomes all leave the client authenticated. */
  lemma InvalidSessionAuthenticates(
    cookie: Option<string>, row: Option<SessionEndpoints.SessionRow>, now: SessionEndpoints.Timestamp,
    body: Fetch.Body, s: AuthContext.AuthState)
    requires var b := SessionEndpoints.Validation(cookie, row, now).body;
      b.SessionNotFound? || b.ForceLoggedOut? || b.SessionExpired?
    ensures var reply := SessionEndpoints.Validation(cookie, row, now);
      && !reply.body.SessionValid?
      && AuthContext.Step(s, AuthContext.CheckAuth(Seen(reply, body))).isAuthenticated
  {
    ClientTrustsStatusOnly(cookie, row, now, body, s);
  }

  /** The callback page, too, goes to the dashboard on an invalid session and never submits the check. */
  lemma CallbackSkipsCheckOnInvalidSession(
    cookie: Option<string>, row: Option<SessionEndpoints.SessionRow>, now: SessionEndpoints.Timestamp,
    body: Fetch.Body, loginId: string, userAgent: string, check: Fetch.Outcome)
    requires loginId != ""
    requires var b := SessionEndpoints.Validation(cookie, row, now).body;
      b.SessionNotFound? || b.ForceLoggedOut? || b.SessionExpired?
    ensures var reply := SessionEndpoints.Validation(cookie, row, now);
      var effect := Callback.LoginFlow(Some(loginId), userAgent, Seen(reply, body), check);
      effect.pushed == Some(Callback.Dashboard) && effect.requests == [Callback.ValidateRequest]
  {
  }

  /**
   * As the handler is written, the expired branch fails with a server error,
   * which the client does read as "not authenticated"; the trust in status 200
   * therefore covers only "not found" and "forced logout" in the code as written.
   */
  lemma AsWrittenExpiryLogsOut(
    cookie: Option<string>, row: SessionEndpoints.SessionRow, now: SessionEndpoints.Timestamp,
    body: Fetch.Body, s: AuthContext.AuthState)
    requires SessionEndpoints.Validation(cookie, Some(row), now).body.SessionExpired?
    ensures var reply := SessionEndpoints.ValidationAsWritten(cookie, Some(row), now);
      !AuthContext.Step(s, AuthContext.CheckAuth(Seen(reply, body))).isAuthenticated
  {
  }

  /**
   * On the callback page the as-written expiry failure, taken as a 500, is
   * not ok, so `login()` goes on to submit the check, whose answer decides
   * whether it reaches the dashboard.
   */
  lemma AsWrittenExpiryCallbackChecks(
    cookie: Option<string>, row: SessionEndpoints.SessionRow, now: SessionEndpoints.Timestamp,
    body: Fetch.Body, loginId: string, userAgent: string, check: Fetch.Outcome)
    requires loginId != ""
    requires SessionEndpoints.Validation(cookie, Some(row), now).body.SessionExpired?
    ensures var reply := SessionEndpoints.ValidationAsWritten(cookie, Some(row), now);
      var effect := Callback.LoginFlow(Some(loginId), userAgent, Seen(reply, body), check);
      && effect.requests == [Callback.ValidateRequest, Callback.CheckRequest(Callback.CheckBody(loginId, userAgent))]
      && (effect.pushed == Some(Callback.Dashboard) <==> check.Resolved? && Fetch.Ok(check.response.status))
  {
  }

  /**
   * One round trip: the provider's `checkAuth` against the backend's
   * validation of the stored rows. The client ends authenticated exactly when
   * a cookie was sent and the handler answered, valid or not.
   */
  method CheckAuthRoundTrip(
    p: AuthContext.AuthProvider, cookie: Option<string>, store: seq<SessionEndpoints.UserSession>,
    now: SessionEndpoints.Timestamp, body: Fetch.Body) returns (reply: SessionEndpoints.HttpReply)
    modifies p, set s | s in store
    ensures var t := SessionEndpoints.Target(cookie, store);
      reply == SessionEndpoints.Validation(cookie, if t == null then None else Some(old(t.Row())), now)
    ensures var t := SessionEndpoints.Target(cookie, store);
      t != null ==> t.Row() == SessionEndpoints.RowAfter(old(t.Row()), now)
    ensures forall s :: s in store && s != SessionEndpoints.Target(cookie, store) ==> s.Row() == old(s.Row())
    ensures !p.loading
    ensures p.isAuthenticated <==> !SessionEndpoints.NoCookie(cookie) && !reply.body.InternalError?
  {
    reply := SessionEndpoints.ValidateSession(cookie, store, now);
    p.CheckAuth(Seen(reply, body));
  }
}
