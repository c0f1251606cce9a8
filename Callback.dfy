/**
 * The login callback page (frontend/app/callback/page.jsx): `login()` reads
 * the `login_id` query parameter, asks `/session/validate`, and when that is
 * not ok submits `/session/check`; it ends by pushing a route or by setting
 * `errorData`. The outcomes of the two fetches are inputs.
 */
module Callback {
  import opened Wrappers
  import opened Fetch

  /** The routes the page pushes. */
  datatype Route = Home | Dashboard   // "/" and "/dashboard"

  /** The requests the page issues, in order. */
  datatype Request =
    | ValidateRequest                            // GET /session/validate
    | CheckRequest(body: map<string, string>)    // POST /session/check with a JSON body

  /** The body of the check request: the login id and the user agent, nothing else. */
  function CheckBody(loginId: string, userAgent: string): (body: map<string, string>)
    ensures body.Keys == {"login_id", "device_info"}
    ensures body["login_id"] == loginId && body["device_info"] == userAgent
  {
    map["login_id" := loginId, "device_info" := userAgent]
  }

  /** `{message: m}` */
  function Message(m: string): (v: JsValue) {
    Obj(map["message" := Str(m)])
  }

  /** What one run of `login()` does: the requests, the route pushed, the error data set. */
  datatype LoginEffect = LoginEffect(requests: seq<Request>, pushed: Option<Route>, errorData: Option<JsValue>)

  /**
   * The error data after a check response that is not ok: `err.detail` when
   * it is truthy, else `{message: "Login denied"}`; when the body is not JSON,
   * or is `null` (or `undefined`) so that reading `.detail` throws, the catch sets
   * `{message: "Unexpected error occurred"}`.
   */
  function DeniedData(body: Body): (e: JsValue)
    ensures body.NotJson? || body.value.Null? || body.value.Undefined? ==> e == Message("Unexpected error occurred")
    ensures body.Json? && body.value.Obj? && "detail" in body.value.fields && Truthy(body.value.fields["detail"])
            ==> e == body.value.fields["detail"]
    ensures body.Json? && !body.value.Null? && !body.value.Undefined? && !(body.value.Obj? && "detail" in body.value.fields && Truthy(body.value.fields["detail"]))
            ==> e == Message("Login denied")
  {
    match body
    case NotJson => Message("Unexpected error occurred")
    case Json(err) =>
      match Property(err, "detail")
      case None => Message("Unexpected error occurred")
      case Some(detail) => if Truthy(detail) then detail else Message("Login denied")
  }

  /**
   * The decision of `login()`. Without a login id it goes home and fetches
   * nothing; a validate response that is ok goes to the dashboard without
   * checking; otherwise the check decides: ok goes to the dashboard, not ok
   * sets the denial data; a thrown fetch sets the generic error.
   */
  function LoginFlow(loginId: Option<string>, userAgent: string, validate: Outcome, check: Outcome): (r: LoginEffect)
    ensures loginId.None? || loginId.value == "" <==> r.pushed == Some(Home)
    ensures r.pushed == Some(Home) ==> r.requests == [] && r.errorData.None?
    ensures r.pushed.Some? <==> r.errorData.None?
    ensures r.pushed == Some(Dashboard) <==>
              !(loginId.None? || loginId.value == "")
              && ((validate.Resolved? && Ok(validate.response.status))
                  || (validate.Resolved? && check.Resolved? && Ok(check.response.status)))
    ensures validate.Resolved? && Ok(validate.response.status) && r.requests != [] ==> r.requests == [ValidateRequest]
    ensures forall i :: 0 <= i < |r.requests| && r.requests[i].CheckRequest? ==>
              i == 1 && r.requests[i].body == CheckBody(loginId.value, userAgent)
    ensures |r.requests| <= 2
    ensures !(loginId.None? || loginId.value == "") ==>
              r.requests == [ValidateRequest] + (if validate.Resolved? && !Ok(validate.response.status)
                                                  then [CheckRequest(CheckBody(loginId.value, userAgent))] else [])
    ensures !(loginId.None? || loginId.value == "")
            && (validate.Rejected? || (!Ok(validate.response.status) && check.Rejected?))
            ==> r.errorData == Some(Message("Unexpected error occurred"))
    ensures !(loginId.None? || loginId.value == "")
            && validate.Resolved? && !Ok(validate.response.status) && check.Resolved? && !Ok(check.response.status)
            ==> r.errorData == Some(DeniedData(check.response.body))
  {
    if loginId.None? || loginId.value == "" then LoginEffect([], Some(Home), None)
    else match validate
      case Rejected => LoginEffect([ValidateRequest], None, Some(Message("Unexpected error occurred")))
      case Resolved(v) =>
        if Ok(v.status) then LoginEffect([ValidateRequest], Some(Dashboard), None)
        else
          var sent := [ValidateRequest, CheckRequest(CheckBody(loginId.value, userAgent))];
          match check
          case Rejected => LoginEffect(sent, None, Some(Message("Unexpected error occurred")))
          case Resolved(res) =>
            if Ok(res.status) then LoginEffect(sent, Some(Dashboard), None)
            else LoginEffect(sent, None, Some(DeniedData(res.body)))
  }

  /** The page: the error state, and what it has pushed and sent so far. */
  class CallbackPage {
    var errorData: Option<JsValue>
    var history: seq<Route>
    var sent: seq<Request>

    /** `useState(null)`; nothing pushed or sent yet. */
    constructor ()
      ensures errorData.None? && history == [] && sent == []
    {
      errorData := None;
      history := [];
      sent := [];
    }

    /** `login()`, step by step with its early returns. */
    method Login(loginId: Option<string>, userAgent: string, validate: Outcome, check: Outcome)
      modifies this
      ensures var e := LoginFlow(loginId, userAgent, validate, check);
        && sent == old(sent) + e.requests
        && history == old(history) + (if e.pushed.Some? then [e.pushed.value] else [])
        && errorData == (if e.errorData.Some? then e.errorData else old(errorData))
    {
      if loginId.None? || loginId.value == "" {
        history := history + [Home];
        return;
      }
      sent := sent + [ValidateRequest];
      if validate.Rejected? {
        errorData := Some(Message("Unexpected error occurred"));
        return;
      }
      if Ok(validate.response.status) {
        history := history + [Dashboard];
        return;
      }
      sent := sent + [CheckRequest(CheckBody(loginId.value, userAgent))];
      if check.Rejected? {
        errorData := Some(Message("Unexpected error occurred"));
        return;
      }
      if Ok(check.response.status) {
        history := history + [Dashboard];
      } else {
        errorData := Some(DeniedData(check.response.body));
      }
    }
  }

  /** The device card's label: "session", with an "s" exactly when the count exceeds one. */
  function SessionsLabel(sessionCount: int): (text: string)
    ensures text == "session" || text == "sessions"
    ensures text == "sessions" <==> sessionCount > 1
  {
    "session" + (if sessionCount > 1 then "s" else "")
  }
}
