/**
 * The client's authentication state (frontend/context/AuthContext.jsx): two
 * flags, `isAuthenticated` and `loading`, set by `checkAuth` (run once when the
 * provider mounts) and by `logout`. Each awaited fetch is an input: a resolved
 * response or a rejected promise.
 */
module AuthContext {
  import opened Fetch

  /** The two state variables of the provider. */
  datatype AuthState = AuthState(isAuthenticated: bool, loading: bool)

  /** The state before anything has been fetched. */
  const Initial: AuthState := AuthState(false, true)

  /** The two transitions, each with the outcome of its fetch. */
  datatype Event = CheckAuth(result: Outcome) | Logout(result: Outcome)

  /**
   * One transition. `checkAuth` copies `res.ok` (the body is never read), or
   * clears the flag when the fetch throws, and always clears `loading` in its
   * `finally`. `logout` clears the flag once its fetch resolves, whatever the
   * status, leaves everything as it was when the fetch throws, and never
   * touches `loading`.
   */
  function Step(s: AuthState, e: Event): (t: AuthState)
    ensures e.CheckAuth? ==> !t.loading
    ensures e.CheckAuth? ==> (t.isAuthenticated <==> e.result.Resolved? && Ok(e.result.response.status))
    ensures e.Logout? ==> t.loading == s.loading
    ensures e.Logout? && e.result.Resolved? ==> !t.isAuthenticated
    ensures e.Logout? && e.result.Rejected? ==> t == s
  {
    match e
    case CheckAuth(Resolved(res)) => AuthState(Ok(res.status), false)
    case CheckAuth(Rejected) => AuthState(false, false)
    case Logout(Resolved(_)) => s.(isAuthenticated := false)
    case Logout(Rejected) => s
  }

  /** The state after a sequence of transitions, in order. */
  function Run(s: AuthState, events: seq<Event>): (t: AuthState)
    decreases |events|
  {
    if events == [] then s else Run(Step(s, events[0]), events[1..])
  }

  /** `loading` is still true exactly as long as no `checkAuth` has finished. */
  lemma {:induction false} LoadingUntilFirstCheck(s: AuthState, events: seq<Event>)
    ensures Run(s, events).loading <==> s.loading && forall i :: 0 <= i < |events| ==> events[i].Logout?
    decreases |events|
  {
    if events != [] {
      LoadingUntilFirstCheck(Step(s, events[0]), events[1..]);
      assert forall i :: 1 <= i < |events| ==> events[i] == events[1..][i - 1];
    }
  }

  /** Nothing sets `loading` back to true. */
  lemma LoadingNeverReturns(s: AuthState, events: seq<Event>)
    requires !s.loading
    ensures !Run(s, events).loading
  {
    LoadingUntilFirstCheck(s, events);
  }

  /** From the initial state, the client counts as authenticated only after a `checkAuth` whose response was ok. */
  lemma {:induction false} AuthenticatedOnlyAfterOkCheck(s: AuthState, events: seq<Event>)
    requires Run(s, events).isAuthenticated
    ensures s.isAuthenticated || exists i :: 0 <= i < |events| && events[i].CheckAuth? && events[i].result.Resolved?
                                                              && Ok(events[i].result.response.status)
    decreases |events|
  {
    if events != [] {
      var t := Step(s, events[0]);
      AuthenticatedOnlyAfterOkCheck(t, events[1..]);
      if !t.isAuthenticated {
        var i :| 0 <= i < |events[1..]| && events[1..][i].CheckAuth? && events[1..][i].result.Resolved?
                 && Ok(events[1..][i].result.response.status);
        assert events[i + 1] == events[1..][i];
      }
    }
  }

  /** The React provider: its two state variables, updated in place. */
  class AuthProvider {
    var isAuthenticated: bool
    var loading: bool

    function State(): (s: AuthState)
      reads this
    {
      AuthState(isAuthenticated, loading)
    }

    /** `useState(false)` and `useState(true)`. */
    constructor ()
      ensures State() == Initial
    {
      isAuthenticated := false;
      loading := true;
    }

    /** `checkAuth`, with the outcome of its `/session/validate` fetch. */
    method CheckAuth(result: Outcome)
      modifies this
      ensures State() == Step(old(State()), Event.CheckAuth(result))
    {
      match result {
        case Resolved(res) =>
          isAuthenticated := Ok(res.status);
        case Rejected =>
          isAuthenticated := false;
      }
      loading := false;
    }

    /** `logout`, with the outcome of its `/logout` fetch. */
    method Logout(result: Outcome)
      modifies this`isAuthenticated
      ensures State() == Step(old(State()), Event.Logout(result))
    {
      if result.Resolved? {
        isAuthenticated := false;
      }
    }
  }

  /** Mounting the provider runs `checkAuth` once; afterwards `loading` is false and stays so. */
  method Mount(result: Outcome) returns (p: AuthProvider)
    ensures fresh(p)
    ensures p.State() == Run(Initial, [CheckAuth(result)])
    ensures !p.loading
  {
    p := new AuthProvider();
    p.CheckAuth(result);
  }
}
