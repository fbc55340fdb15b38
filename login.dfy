/** The login page: where a successful login navigates, and the redirect taken
    on mount when a user id is already stored. Navigations are returned as the
    list of paths `navigate` is called with, in order. */
module LoginPage {
  import opened JsValues
  import Dashboard
  import Pick

  /** `location.state` when present: the page the user was sent away from. */
  datatype NavigationState = NavigationState(from: string)

  /** The body of a successful login response, as passed to `onLoginSuccess`. */
  datatype LoginResponse = LoginResponse(userId: string, assignedNumber: Option<int>)

  /** `handleLoginSuccess(data)`: the intended page wins; otherwise a user holding
      a number goes to the dashboard and any other user to the pick page. */
  function OnLoginSuccess(state: Option<NavigationState>, data: LoginResponse): (navigations: seq<string>)
    ensures |navigations| == 1
    ensures state.Some? ==> navigations == [state.value.from]
    ensures state.None? && TruthyNumber(data.assignedNumber) ==> navigations == ["/dashboard"]
    ensures state.None? && !TruthyNumber(data.assignedNumber) ==> navigations == ["/pick"]
  {
    if state.Some? then [state.value.from]
    else if TruthyNumber(data.assignedNumber) then ["/dashboard"]
    else ["/pick"]
  }

  /** The effect on mount: it navigates only when a user id is stored AND a
      navigation state is present, and then to `state.from`. */
  function OnMount(storedUserId: Option<string>, state: Option<NavigationState>): (navigations: seq<string>)
    ensures |navigations| <= 1
    ensures navigations != [] <==> TruthyString(storedUserId) && state.Some?
    ensures navigations != [] ==> navigations == [state.value.from]
  {
    if TruthyString(storedUserId) && state.Some? then [state.value.from] else []
  }

  /** A login response that agrees with the stored user record: it carries the
      record's number exactly when the user has chosen, and numbers start at 1. */
  predicate ResponseMatches(data: LoginResponse, u: Dashboard.User) {
    && data.assignedNumber == (if u.chosen then Some(u.assignedNumber) else None)
    && (u.chosen ==> u.assignedNumber >= 1)
  }

  /** Without a navigation state, login lands on the page that keeps the user:
      a user who has chosen goes to the dashboard, which does not send them on
      to /pick; a user who has not goes to the pick page, which does not send
      them on to /dashboard. */
  lemma LoginLandsOnSettledPage(data: LoginResponse, u: Dashboard.User, allUsers: Option<seq<Dashboard.User>>,
                                available: Option<seq<int>>, chosen: Option<seq<int>>)
    requires ResponseMatches(data, u)
    ensures OnLoginSuccess(None, data) == if u.chosen then ["/dashboard"] else ["/pick"]
    ensures OnLoginSuccess(None, data) == ["/dashboard"] ==>
              Dashboard.FetchData(Some(u), allUsers, available, chosen) != Dashboard.NavigateToPick
    ensures OnLoginSuccess(None, data) == ["/pick"] ==> Pick.AfterUserFetched(u.chosen) == []
  {
  }
}
