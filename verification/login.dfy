/**
  The sign-in form (components/auth/Login.jsx): the role chosen on the form is
  written into the user's metadata after a successful sign-in, and the user is
  sent to the landing route of that role.
 */
module Login {
  import opened Wrappers
  import opened Access

  /** The form state: chosen role, error message shown, and the busy flag. */
  datatype LoginForm = LoginForm(role: string, error: Option<string>, loading: bool)

  /** The result of one submit: the form afterwards, the signed-in user (if any) and where it navigated. */
  datatype Attempt = Attempt(form: LoginForm, user: Option<User>, navigateTo: Option<Route>)

  /** The form as first shown: "super-admin" is preselected, with no error and not busy. */
  function InitialForm(): (f: LoginForm)
    ensures f.role == SuperAdminRole && f.error.None? && !f.loading
  {
    LoginForm(SuperAdminRole, None, false)
  }

  /** The role switch after sign-in: super-admin and admin have their own homes, everyone else the dashboard. */
  function LandingRoute(role: string): (r: Route)
    ensures role == SuperAdminRole ==> r == SuperAdminHome
    ensures role == AdminRole ==> r == AdminHome
    ensures role != SuperAdminRole && role != AdminRole ==> r == Dashboard
  {
    if role == SuperAdminRole then SuperAdminHome
    else if role == AdminRole then AdminHome
    else Dashboard
  }

  /** Choosing another role in the select. */
  function ChooseRole(f: LoginForm, role: string): (f': LoginForm)
    ensures f'.role == role && f'.error == f.error && f'.loading == f.loading
  {
    f.(role := role)
  }

  /** The start of the submit handler: the old error is cleared and the form is busy. */
  function BeginSubmit(f: LoginForm): (f': LoginForm)
    ensures f'.role == f.role && f'.error.None? && f'.loading
  {
    f.(error := None, loading := true)
  }

  /**
    The whole submit handler. `signIn` is the password sign-in's outcome (the
    signed-in user, or the error message); `roleSaved` says whether the
    metadata update took effect, which the handler never checks.
   */
  function Submit(f: LoginForm, signIn: Result<User, string>, roleSaved: bool): (a: Attempt)
    ensures !a.form.loading && a.form.role == f.role
    ensures signIn.Failure? ==>
              a.form.error == Some(signIn.error) && a.user.None? && a.navigateTo.None?
    ensures signIn.Success? ==>
              a.form.error.None? && a.user.Some? && a.navigateTo == Some(LandingRoute(f.role))
    ensures signIn.Success? && roleSaved ==> a.user == Some(User(Some(f.role)))
    ensures signIn.Success? && !roleSaved ==> a.user == Some(signIn.value)
  {
    var busy := BeginSubmit(f);
    match signIn
    case Failure(msg) =>
      Attempt(busy.(error := Some(msg), loading := false), None, None)
    case Success(u) =>
      var saved := if roleSaved then u.(role := Some(f.role)) else u;
      Attempt(busy.(loading := false), Some(saved), Some(LandingRoute(f.role)))
  }

  /**
    Because the chosen role is written before navigating, the landing route
    of every role (not only the selectable ones) admits the signed-in user.
   */
  lemma LandingAdmitted(f: LoginForm, u: User)
    ensures Submit(f, Success(u), true).navigateTo.Some?
    ensures Admits(Submit(f, Success(u), true).navigateTo.value,
                   Submit(f, Success(u), true).user.value.role)
  {
  }

  /**
    If the metadata update did not take effect, the landing route may refuse
    the user, but then its one redirect reaches a page that renders.
   */
  lemma LandingWithoutSavedRole(f: LoginForm, u: User)
    ensures var a := Submit(f, Success(u), false);
            var v := Render(a.navigateTo.value, false, a.user);
            v == Children || (v == Redirect("/dashboard") && Render(Dashboard, false, a.user) == Children)
  {
  }

  /**
    The form lets any account pick any selectable role, so every account that
    signs in with "super-admin" chosen is admitted to the super-admin page.
   */
  lemma ChosenRoleIsTrusted(f: LoginForm, u: User)
    requires f.role == SuperAdminRole
    ensures Submit(f, Success(u), true).navigateTo == Some(SuperAdminHome)
    ensures Admits(SuperAdminHome, Submit(f, Success(u), true).user.value.role)
  {
  }

  /**
    A user who never touches the role select signs in as super-admin: the
    preselected role is written and the super-admin page admits them.
   */
  lemma UntouchedFormLandsOnSuperAdmin(u: User)
    ensures Submit(InitialForm(), Success(u), true).navigateTo == Some(SuperAdminHome)
    ensures Admits(SuperAdminHome, Submit(InitialForm(), Success(u), true).user.value.role)
  {
  }
}
