/**
 * The session endpoints of the backend (backend/main.py): `/session/validate`
 * decides, from the `session_id` cookie and the stored session row, whether
 * the session is still valid and updates the row; `/logout/force` and
 * `/logout` map the results of their helpers onto HTTP answers.
 *
 * The helpers (`forced_logout`, `logout_session`) are not part of this model;
 * their results are inputs. The clock reading `now` is an input too.
 */
module SessionEndpoints {
  import opened Wrappers

  /** A UTC clock reading; `datetime` comparison is integer comparison here. */
  type Timestamp = int

  /** The request's `session_id` cookie is missing or empty (`not session_id`). */
  predicate NoCookie(cookie: Option<string>) {
    cookie.None? || cookie.value == ""
  }

  // ---------------------------------------------------------------------------
  // The session row
  // ---------------------------------------------------------------------------

  /** A snapshot of one row of the session table. */
  datatype SessionRow = SessionRow(
    sessionId: string,
    userId: string,
    isActive: bool,
    closedReason: Option<string>,
    expiresAt: Timestamp,
    lastActive: Timestamp,
    forceLoggedBy: Option<string>,
    forceLoggedAt: Option<Timestamp>,
    forceLogoutMessage: Option<string>)

  /** A row of the session table, as the ORM object the endpoint updates in place. */
  class UserSession {
    const sessionId: string
    const userId: string
    var isActive: bool
    var closedReason: Option<string>
    var expiresAt: Timestamp
    var lastActive: Timestamp
    var forceLoggedBy: Option<string>
    var forceLoggedAt: Option<Timestamp>
    var forceLogoutMessage: Option<string>

    constructor (row: SessionRow)
      ensures Row() == row
    {
      sessionId, userId := row.sessionId, row.userId;
      isActive, closedReason := row.isActive, row.closedReason;
      expiresAt, lastActive := row.expiresAt, row.lastActive;
      forceLoggedBy, forceLoggedAt, forceLogoutMessage := row.forceLoggedBy, row.forceLoggedAt, row.forceLogoutMessage;
    }

    /** The current contents of the row. */
    function Row(): (row: SessionRow)
      reads this
    {
      SessionRow(sessionId, userId, isActive, closedReason, expiresAt, lastActive,
                 forceLoggedBy, forceLoggedAt, forceLogoutMessage)
    }
  }

  /** The query `filter_by(session_id=id).first()`: the first row with that id. */
  function FirstWithId(store: seq<UserSession>, id: string): (s: UserSession?)
    ensures s != null ==> exists i :: 0 <= i < |store| && store[i] == s && s.sessionId == id
                                      && forall j :: 0 <= j < i ==> store[j].sessionId != id
    ensures s == null <==> forall i :: 0 <= i < |store| ==> store[i].sessionId != id
  {
    if store == [] then null
    else if store[0].sessionId == id then store[0]
    else
      var s := FirstWithId(store[1..], id);
      assert s != null ==> exists i :: 1 <= i < |store| && store[i] == s && s.sessionId == id
                                       && forall j :: 0 <= j < i ==> store[j].sessionId != id by {
        if s != null {
          var i :| 0 <= i < |store[1..]| && store[1..][i] == s && s.sessionId == id
                   && forall j :: 0 <= j < i ==> store[1..][j].sessionId != id;
          assert store[i + 1] == s;
          assert forall j :: 0 <= j < i + 1 ==> store[j].sessionId != id by {
            forall j | 0 <= j < i + 1 ensures store[j].sessionId != id {
              if j > 0 { assert store[j] == store[1..][j - 1]; }
            }
          }
        }
      }
      assert s == null <==> forall i :: 1 <= i < |store| ==> store[i].sessionId != id by {
        assert forall i :: 1 <= i < |store| ==> store[i] == store[1..][i - 1];
      }
      s
  }

  /** The row the endpoint reads: none without a cookie, else the first with that id. */
  function Target(cookie: Option<string>, store: seq<UserSession>): (s: UserSession?)
    ensures s != null ==> !NoCookie(cookie) && s in store && s.sessionId == cookie.value
    ensures NoCookie(cookie) ==> s == null
    ensures !NoCookie(cookie) ==> s == FirstWithId(store, cookie.value)
  {
    if NoCookie(cookie) then null else FirstWithId(store, cookie.value)
  }

  // ---------------------------------------------------------------------------
  // The validation answer
  // ---------------------------------------------------------------------------

  /** The `details` object of a force-logged-out answer. */
  datatype ForceDetails = ForceDetails(loggedOutBy: Option<string>, loggedOutAt: Timestamp, message: Option<string>)

  /** The body of the answer. */
  datatype ValidateBody =
    | NoSessionCookie                       // HTTPException detail "No session cookie"
    | SessionNotFound                       // {"valid": false, "reason": "session_not_found"}
    | ForceLoggedOut(details: ForceDetails) // {"valid": false, "reason": "force_logged_out", "details": ...}
    | SessionExpired                        // {"valid": false, "reason": "session_expired"}
    | SessionValid(sessionId: string, userId: string) // {"valid": true, ...}
    | InternalError                         // an exception escaped the handler

  /** The answer: its status, its body, and whether it tells the browser to delete the `session_id` cookie. */
  datatype HttpReply = HttpReply(status: int, body: ValidateBody, clearsCookie: bool)

  /** The row was closed by a forced logout: inactive with that closing reason. */
  predicate ForcedOut(row: SessionRow) {
    !row.isActive && row.closedReason == Some("force_logout")
  }

  /** The row is no longer usable: inactive, or its expiry is not after `now`. */
  predicate Lapsed(row: SessionRow, now: Timestamp) {
    !row.isActive || row.expiresAt <= now
  }

  /**
   * The decision of `/session/validate`, a strict precedence chain: no cookie
   * (401), no row, forced logout, lapsed, valid. Every answer after the cookie
   * check carries status 200, whether or not the session is valid. A forced
   * logout without a recorded time cannot be rendered (`isoformat` of None
   * raises) and ends in a server error.
   */
  function Validation(cookie: Option<string>, row: Option<SessionRow>, now: Timestamp): (r: HttpReply)
    ensures r.status == 401 <==> NoCookie(cookie)
    ensures r.status == 401 ==> r.body == NoSessionCookie
    ensures r.status == 401 || r.status == 200 || r.body == InternalError
    ensures r.body.InternalError? <==> !NoCookie(cookie) && row.Some? && ForcedOut(row.value) && row.value.forceLoggedAt.None?
    ensures r.status == 200 <==> !NoCookie(cookie) && !r.body.InternalError?
    ensures r.body.SessionNotFound? <==> !NoCookie(cookie) && row.None?
    ensures r.body.ForceLoggedOut? <==> !NoCookie(cookie) && row.Some? && ForcedOut(row.value) && row.value.forceLoggedAt.Some?
    ensures r.body.ForceLoggedOut? ==>
              r.body.details == ForceDetails(row.value.forceLoggedBy, row.value.forceLoggedAt.value, row.value.forceLogoutMessage)
    ensures r.body.SessionExpired? <==> !NoCookie(cookie) && row.Some? && !ForcedOut(row.value) && Lapsed(row.value, now)
    ensures r.body.SessionValid? <==> !NoCookie(cookie) && row.Some? && row.value.isActive && now < row.value.expiresAt
    ensures r.body.SessionValid? ==> r.body.sessionId == row.value.sessionId && r.body.userId == row.value.userId
    ensures r.clearsCookie <==> r.body.SessionExpired?
    ensures r.body.InternalError? ==> r.status == 500
  {
    if NoCookie(cookie) then HttpReply(401, NoSessionCookie, false)
    else match row
      case None => HttpReply(200, SessionNotFound, false)
      case Some(s) =>
        if ForcedOut(s) then
          match s.forceLoggedAt
          case None => HttpReply(500, InternalError, false)
          case Some(at) => HttpReply(200, ForceLoggedOut(ForceDetails(s.forceLoggedBy, at, s.forceLogoutMessage)), false)
        else if Lapsed(s, now) then HttpReply(200, SessionExpired, true)
        else HttpReply(200, SessionValid(s.sessionId, s.userId), false)
  }

  /**
   * The row after a validation with a cookie: a lapsed row is marked
   * inactive, a valid one has its last-activity time set to `now`, and a
   * force-logged-out one is left as it was.
   */
  function RowAfter(row: SessionRow, now: Timestamp): (r: SessionRow)
    ensures r == row || r == row.(isActive := false) || r == row.(lastActive := now)
    ensures r.isActive == (row.isActive && now < row.expiresAt)
    ensures r.lastActive == (if row.isActive && now < row.expiresAt then now else row.lastActive)
    ensures ForcedOut(row) ==> r == row
  {
    if ForcedOut(row) then row
    else if Lapsed(row, now) then row.(isActive := false)
    else row.(lastActive := now)
  }

  /** A row that answered "valid" is still valid, at the same time, after its update. */
  lemma RevalidateAtSameTime(cookie: Option<string>, row: SessionRow, now: Timestamp)
    requires Validation(cookie, Some(row), now).body.SessionValid?
    ensures Validation(cookie, Some(RowAfter(row, now)), now) == Validation(cookie, Some(row), now)
  {
  }

  /** Validation never revives a row: once the answer is not "valid", it never will be again. */
  lemma NeverRevived(cookie: Option<string>, row: SessionRow, now: Timestamp, later: Timestamp)
    requires !NoCookie(cookie) && now <= later
    requires !Validation(cookie, Some(row), now).body.SessionValid?
    ensures !Validation(cookie, Some(RowAfter(row, now)), later).body.SessionValid?
  {
  }

  /**
   * `/session/validate`: answers from the cookie and the row it names, marks a
   * lapsed row inactive and clears the cookie, refreshes a valid row's last
   * activity, and touches no other row.
   */
  method ValidateSession(cookie: Option<string>, store: seq<UserSession>, now: Timestamp) returns (r: HttpReply)
    modifies set s | s in store
    ensures var t := Target(cookie, store);
      r == Validation(cookie, if t == null then None else Some(old(t.Row())), now)
    ensures var t := Target(cookie, store);
      t != null ==> t.Row() == RowAfter(old(t.Row()), now)
    ensures forall s :: s in store && s != Target(cookie, store) ==> s.Row() == old(s.Row())
  {
    if cookie.None? || cookie.value == "" {
      return HttpReply(401, NoSessionCookie, false);
    }
    var session := FirstWithId(store, cookie.value);
    if session == null {
      return HttpReply(200, SessionNotFound, false);
    }
    if !session.isActive && session.closedReason == Some("force_logout") {
      if session.forceLoggedAt.None? {
        return HttpReply(500, InternalError, false);
      }
      var details := ForceDetails(session.forceLoggedBy, session.forceLoggedAt.value, session.forceLogoutMessage);
      return HttpReply(200, ForceLoggedOut(details), false);
    }
    if !session.isActive || session.expiresAt <= now {
      session.isActive := false;
      return HttpReply(200, SessionExpired, true);
    }
    session.lastActive := now;
    r := HttpReply(200, SessionValid(session.sessionId, session.userId), false);
  }

  // ---------------------------------------------------------------------------
  // The expired branch as the source writes it
  // ---------------------------------------------------------------------------

  /** The branch that fails as written: a cookie, a row, not force-logged-out, and lapsed. */
  predicate FailingBranch(cookie: Option<string>, row: Option<SessionRow>, now: Timestamp) {
    !NoCookie(cookie) && row.Some? && !ForcedOut(row.value) && Lapsed(row.value, now)
  }

  /**
   * The handler as written: the lapsed branch calls `delete_cookie` on the
   * request object, which has no such method, so that branch ends in a server
   * error before the row is committed. No answer is ever "session_expired",
   * and the "valid" answers are exactly those of the intended handler.
   */
  function ValidationAsWritten(cookie: Option<string>, row: Option<SessionRow>, now: Timestamp): (r: HttpReply)
    ensures !r.body.SessionExpired? && !r.clearsCookie
    ensures r.body.InternalError? ==> r.status == 500
    ensures r.body.SessionValid? <==> Validation(cookie, row, now).body.SessionValid?
    ensures r.body.InternalError? <==> Validation(cookie, row, now).body.InternalError? || FailingBranch(cookie, row, now)
    ensures !FailingBranch(cookie, row, now) ==> r == Validation(cookie, row, now)
  {
    if FailingBranch(cookie, row, now) then HttpReply(500, InternalError, false)
    else Validation(cookie, row, now)
  }

  /**
   * The stored row after the handler as written. Without a cookie no row is
   * read; on the failing branch the exception escapes before `db.commit()`,
   * so the stored row stays as it was; elsewhere it is `RowAfter`. As a
   * result no request ever changes `is_active`: only `last_active` moves.
   */
  function RowAfterAsWritten(cookie: Option<string>, row: SessionRow, now: Timestamp): (r: SessionRow)
    ensures r == row || r == RowAfter(row, now)
    ensures NoCookie(cookie) ==> r == row
    ensures !NoCookie(cookie) ==> (r != RowAfter(row, now) <==> row.isActive && row.expiresAt <= now)
    ensures r.isActive == row.isActive
    ensures !NoCookie(cookie) ==> r.lastActive == RowAfter(row, now).lastActive
  {
    if NoCookie(cookie) || FailingBranch(cookie, Some(row), now) then row else RowAfter(row, now)
  }

  /**
   * As written, an active row past its expiry is never marked inactive, so
   * every later request with it fails the same way.
   */
  lemma AsWrittenExpiredStaysActive(cookie: Option<string>, row: SessionRow, now: Timestamp, later: Timestamp)
    requires !NoCookie(cookie) && row.isActive && row.expiresAt <= now <= later
    ensures RowAfterAsWritten(cookie, row, now) == row
    ensures RowAfterAsWritten(cookie, row, now).isActive
    ensures ValidationAsWritten(cookie, Some(RowAfterAsWritten(cookie, row, now)), later) == HttpReply(500, InternalError, false)
  {
  }

  /** An expired row: as written the answer is a server error, as intended it is "session_expired". */
  lemma ExpiredBranchFails()
    ensures var row := SessionRow("s1", "u1", true, None, 10, 0, None, None, None);
      && ValidationAsWritten(Some("s1"), Some(row), 10) == HttpReply(500, InternalError, false)
      && RowAfterAsWritten(Some("s1"), row, 10) == row
      && Validation(Some("s1"), Some(row), 10) == HttpReply(200, SessionExpired, true)
      && RowAfter(row, 10) == row.(isActive := false)
  {
  }

  // ---------------------------------------------------------------------------
  // /logout/force and /logout
  // ---------------------------------------------------------------------------

  /** The dictionary `forced_logout` returns: its `success` flag and the rest of its members. */
  datatype ForceResult = ForceResult(success: bool, members: map<string, string>)

  /** How the call to `forced_logout` ends. */
  datatype ForceCall =
    | Returned(result: ForceResult)
    | RaisedHttp(status: int, detail: string)  // an HTTPException
    | RaisedOther                              // any other exception

  datatype ForceContent =
    | Passthrough(result: ForceResult)   // the helper's dictionary, unchanged
    | Failure(message: string)           // {"success": false, "message": detail}

  datatype ForceReply = JsonReply(status: int, content: ForceContent) | Unhandled

  /**
   * `/logout/force`: the helper's dictionary is sent as it is, with 200 when it
   * reports success and 400 otherwise; an HTTPException becomes its own status
   * with a failure body; other exceptions are not caught.
   */
  function ForceLogoutReply(call: ForceCall): (r: ForceReply)
    ensures call.Returned? ==> r.JsonReply? && r.content == Passthrough(call.result)
    ensures call.Returned? ==> (r.status == 200 <==> call.result.success)
    ensures call.Returned? && !call.result.success ==> r.status == 400
    ensures call.RaisedHttp? ==> r == JsonReply(call.status, Failure(call.detail))
    ensures r.Unhandled? <==> call.RaisedOther?
  {
    match call
    case Returned(result) => JsonReply(if result.success then 200 else 400, Passthrough(result))
    case RaisedHttp(status, detail) => JsonReply(status, Failure(detail))
    case RaisedOther => Unhandled
  }

  /** How the call to `logout_session` ends: with its result, or by raising. */
  datatype LogoutCall = Finished(success: bool) | Threw

  datatype LogoutReply =
    | ReturnedException(status: int, detail: string) // an HTTPException object returned, not raised
    | LoggedOut(deletesCookie: bool)                 // {"success": true}
    | RaisedException(status: int, detail: string)   // HTTPException raised
    | LogoutUnhandled                                // the helper's exception, not caught

  /**
   * `/logout`: without a cookie the handler returns (does not raise) a 401
   * exception object and never calls the helper; otherwise `logoutSession`
   * decides between `{"success": true}` with the cookie deleted and a raised
   * 400 "LogoutFailed"; an exception from the helper propagates.
   */
  function LogoutReplyFor(cookie: Option<string>, logoutSession: string -> LogoutCall): (r: LogoutReply)
    ensures NoCookie(cookie) <==> r.ReturnedException?
    ensures NoCookie(cookie) ==> r == ReturnedException(401, "No session found")
    ensures r.LoggedOut? <==> !NoCookie(cookie) && logoutSession(cookie.value) == Finished(true)
    ensures r.LoggedOut? ==> r.deletesCookie
    ensures r.RaisedException? <==> !NoCookie(cookie) && logoutSession(cookie.value) == Finished(false)
    ensures r.RaisedException? ==> r == RaisedException(400, "LogoutFailed")
    ensures r.LogoutUnhandled? <==> !NoCookie(cookie) && logoutSession(cookie.value).Threw?
  {
    if NoCookie(cookie) then ReturnedException(401, "No session found")
    else match logoutSession(cookie.value)
      case Finished(success) => if success then LoggedOut(true) else RaisedException(400, "LogoutFailed")
      case Threw => LogoutUnhandled
  }
}
