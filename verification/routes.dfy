/** Where the app sends a user, and the route guard that protects the
    resident and admin pages. The route paths themselves are not modelled;
    only which route is chosen. */
module Navigation {
  import opened Wrappers
  import MockDb

  type Role = MockDb.Role

  /** The entries of the route table; `NotFound` is the catch-all `*`. */
  datatype Route = Login | Register | Home | Admin | NotFound

  /** The landing page of a role: Admin for ADMIN, Home for anyone else. */
  function RoleHome(role: Role): (r: Route)
    ensures r == Admin <==> role == MockDb.Admin
    ensures r == Home <==> role != MockDb.Admin
  {
    if role == MockDb.Admin then Admin else Home
  }

  /** What `RequireAuth` renders. */
  datatype Guard = Placeholder | Redirect(to: Route) | Children

  /** `RequireAuth({ role, children })` given the auth context: a placeholder
      while loading, Login without a user, Home when a required role differs
      from the user's, and the protected page otherwise. */
  function RequireAuth(loading: bool, user: Option<Role>, required: Option<Role>): (g: Guard)
    ensures loading ==> g == Placeholder
    ensures !loading && user.None? ==> g == Redirect(Login)
    ensures g.Redirect? ==> g.to != Admin
  {
    if loading then Placeholder
    else if user.None? then Redirect(Login)
    else if required.Some? && user.value != required.value then Redirect(Home)
    else Children
  }

  /** The protected page is shown exactly when loading is over, someone is
      signed in, and no role is required or the user has it; without a
      required role every signed-in user passes. */
  lemma RequireAuthAdmits(loading: bool, user: Option<Role>, required: Option<Role>)
    ensures RequireAuth(loading, user, required) == Children <==>
      !loading && user.Some? && (required.None? || required.value == user.value)
    ensures RequireAuth(loading, user, required) == Redirect(Home) <==>
      !loading && user.Some? && required.Some? && required.value != user.value
    ensures !loading && user.Some? && required.None? ==> RequireAuth(loading, user, required) == Children
  {
  }

  /** The guard each route of the route table applies: Login, Register and
      the catch-all are open, Home needs any signed-in user, Admin needs an
      ADMIN. */
  function Required(route: Route): (r: Option<Option<Role>>)
    ensures r.None? <==> route in {Login, Register, NotFound}
    ensures r == Some(Some(MockDb.Admin)) <==> route == Admin
    ensures r.Some? ==> r.value.None? || r.value == Some(MockDb.Admin)
  {
    match route
    case Login => None
    case Register => None
    case NotFound => None
    case Home => Some(None)
    case Admin => Some(Some(MockDb.Admin))
  }

  /** What visiting `route` renders: an open route always renders; a guarded
      one renders once loading is over for a signed-in user holding the
      required role, if any, and otherwise waits or redirects to Login or
      Home. */
  function Visit(route: Route, loading: bool, user: Option<Role>): (g: Guard)
    ensures g == Children <==>
      (Required(route).None?
       || (!loading && user.Some? && (Required(route).value.None? || Required(route).value.value == user.value)))
    ensures g.Redirect? ==> g.to == Login || g.to == Home
  {
    match Required(route)
    case None => Children
    case Some(required) => RequireAuth(loading, user, required)
  }

  /** A signed-in user sent to their landing page by the login or sign-up page
      is admitted there; a resident who asks for Admin is sent Home. */
  lemma LandingAdmitted(role: Role)
    ensures Visit(RoleHome(role), false, Some(role)) == Children
    ensures Visit(Admin, false, Some(MockDb.Resident)) == Redirect(Home)
    ensures Visit(Admin, false, None) == Redirect(Login) && Visit(Home, false, None) == Redirect(Login)
  {
  }

  /** A route is shown to everyone, whatever the auth state, exactly when it
      has no guard; a guarded route is never shown while loading or to a
      visitor who is not signed in. */
  lemma OpenRoutes(route: Route, loading: bool, user: Option<Role>)
    ensures Required(route).None? <==> route in {Login, Register, NotFound}
    ensures Required(route).None? ==> Visit(route, loading, user) == Children
    ensures Required(route).Some? && (loading || user.None?) ==> Visit(route, loading, user) != Children
  {
  }
}
