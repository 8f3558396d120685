/**
  The route guard of the application (`PrivateRoute` in App.jsx) and the
  table that says which roles each route admits.
 */
module Access {
  import opened Wrappers

  /** The signed-in user as the guard sees it; `role` is `user_metadata.role`, which may be unset. */
  datatype User = User(role: Option<string>)

  /** An authentication session as delivered by the auth-state subscription. */
  datatype Session = Session(user: User)

  /** What the guard renders. */
  datatype View = Spinner | Children | Redirect(to: string)

  /** How a route is wrapped: not at all, or in a guard with an optional role list. */
  datatype Guard = Public | Private(allowedRoles: Option<seq<string>>)

  /** The routes of the application. */
  datatype Route =
    | SignIn
    | SignUp
    | SuperAdminHome
    | AdminHome
    | Dashboard
    | ExamRoom(examId: string)
    | CreateExam
    | Reports

  const SuperAdminRole: string := "super-admin"
  const AdminRole: string := "admin"
  const SeekerRole: string := "seeker"

  /** The path each route is mounted on. */
  function PathOf(r: Route): string {
    match r
    case SignIn => "/"
    case SignUp => "/register"
    case SuperAdminHome => "/super-admin"
    case AdminHome => "/admin"
    case Dashboard => "/dashboard"
    case ExamRoom(id) => "/exam/" + id
    case CreateExam => "/create-exam"
    case Reports => "/reports"
  }

  /** The route table: which guard wraps each route's element. */
  function GuardOf(r: Route): (g: Guard)
    ensures g.Public? <==> r == SignIn || r == SignUp
    ensures g.Private? && g.allowedRoles.Some? ==> SuperAdminRole in g.allowedRoles.value
    ensures g.Private? && g.allowedRoles.Some? ==> SeekerRole !in g.allowedRoles.value
  {
    match r
    case SignIn => Public
    case SignUp => Public
    case SuperAdminHome => Private(Some([SuperAdminRole]))
    case AdminHome => Private(Some([AdminRole, SuperAdminRole]))
    case Dashboard => Private(None)
    case ExamRoom(_) => Private(None)
    case CreateExam => Private(Some([AdminRole, SuperAdminRole]))
    case Reports => Private(Some([AdminRole, SuperAdminRole]))
  }

  /** JavaScript's `allowedRoles.includes(userRole)`; an unset role is never included. */
  predicate Includes(allowed: seq<string>, role: Option<string>) {
    role.Some? && role.value in allowed
  }

  /**
    The guard's decision. Loading wins over everything, then a missing user
    is sent to the sign-in page, then a role outside a given list is sent to
    the dashboard; otherwise the wrapped element is rendered.
   */
  function Decide(loading: bool, user: Option<User>, allowed: Option<seq<string>>): (v: View)
    ensures v == Spinner <==> loading
    ensures v == Redirect("/") <==> !loading && user.None?
    ensures v == Redirect("/dashboard") <==>
              !loading && user.Some? && allowed.Some? && !Includes(allowed.value, user.value.role)
    ensures v == Children <==>
              !loading && user.Some? && (allowed.None? || Includes(allowed.value, user.value.role))
  {
    if loading then Spinner
    else if user.None? then Redirect(PathOf(SignIn))
    else if allowed.Some? && !Includes(allowed.value, user.value.role) then Redirect(PathOf(Dashboard))
    else Children
  }

  /** What visiting route `r` shows, given the guard's state. Public routes ignore the guard. */
  function Render(r: Route, loading: bool, user: Option<User>): View {
    match GuardOf(r)
    case Public => Children
    case Private(allowed) => Decide(loading, user, allowed)
  }

  /** The route a redirect target path names. */
  function RouteOfRedirect(path: string): Option<Route> {
    if path == PathOf(SignIn) then Some(SignIn)
    else if path == PathOf(Dashboard) then Some(Dashboard)
    else None
  }

  /** Does route `r` let a signed-in user with this role through once loading is over? */
  predicate Admits(r: Route, role: Option<string>) {
    Render(r, false, Some(User(role))) == Children
  }

  /** The role lists of the table, stated per route. */
  lemma RouteTableRoles(role: Option<string>)
    ensures Admits(SuperAdminHome, role) <==> role == Some(SuperAdminRole)
    ensures Admits(AdminHome, role) <==> role == Some(AdminRole) || role == Some(SuperAdminRole)
    ensures Admits(CreateExam, role) <==> role == Some(AdminRole) || role == Some(SuperAdminRole)
    ensures Admits(Reports, role) <==> role == Some(AdminRole) || role == Some(SuperAdminRole)
    ensures Admits(Dashboard, role) && forall id :: Admits(ExamRoom(id), role)
  {
  }

  /**
    Every redirect the guard issues lands on a route that renders, once loading
    is over, for the same user: the sign-in page is public, and the dashboard
    has no role list. So an authenticated user is redirected at most once.
   */
  lemma RedirectSettles(r: Route, user: Option<User>)
    requires Render(r, false, user).Redirect?
    ensures RouteOfRedirect(Render(r, false, user).to).Some?
    ensures Render(RouteOfRedirect(Render(r, false, user).to).value, false, user) == Children
  {
  }

  /** The state `PrivateRoute` keeps: a loading flag and the current user. */
  datatype GuardState = GuardState(loading: bool, user: Option<User>)

  /** The state on mount: loading, no user yet. */
  function Mounted(): (g: GuardState)
    ensures Decide(g.loading, g.user, None) == Spinner
  {
    GuardState(true, None)
  }

  /** The initial user fetch has resolved with `u`. */
  function FetchDone(g: GuardState, u: Option<User>): (g': GuardState)
    ensures !g'.loading && g'.user == u
  {
    GuardState(false, u)
  }

  /** The auth-state subscription fired: the user is the session's user, or none without a session. */
  function AuthChanged(g: GuardState, session: Option<Session>): (g': GuardState)
    ensures g'.loading == g.loading
    ensures session.Some? ==> g'.user == Some(session.value.user)
    ensures session.None? ==> g'.user.None?
  {
    g.(user := if session.Some? then Some(session.value.user) else None)
  }

  /**
    Signing out (an auth change without a session) after loading sends every
    guarded route to the sign-in page, whatever its role list.
   */
  lemma SignOutRedirects(g: GuardState, r: Route)
    requires !g.loading && GuardOf(r).Private?
    ensures Render(r, AuthChanged(g, None).loading, AuthChanged(g, None).user) == Redirect("/")
  {
  }
}
