/**
 * The enforcement point of the dashboard: a view declares the permission
 * code and the level it requires, and a request passes when the requesting
 * user's resolved level reaches it. A view that declares no code is closed.
 */
module DashboardGate {
  import opened Wrappers
  import opened PermissionLevels
  import opened SoftDeleteModel
  import opened DashboardModels
  import opened PermissionService

  /** What a view may declare; `None` is an attribute the view does not have. */
  datatype View = View(requiredPermissionCode: Option<string>, requiredLevel: Option<int>)

  datatype Request = Request(user: Option<User>)

  /** The level a view requires: the declared one, READ when none is declared. */
  function RequiredLevel(view: View): int {
    match view.requiredLevel
    case Some(l) => l
    case None => Value(READ)
  }

  /** A view declares a code when the attribute is present and not empty. */
  predicate DeclaresCode(view: View) {
    view.requiredPermissionCode.Some? && view.requiredPermissionCode.value != ""
  }

  /** `DashboardPermission.has_permission`. */
  function HasPermission(request: Request, view: View, db: Tables): bool {
    if !DeclaresCode(view) then false
    else HasAdminPerm(request.user, view.requiredPermissionCode.value, RequiredLevel(view), db)
  }

  /** A view without a code, or with an empty one, denies every request. */
  lemma UndeclaredCodeDenies(request: Request, view: View, db: Tables)
    requires view.requiredPermissionCode.None? || view.requiredPermissionCode == Some("")
    ensures !HasPermission(request, view, db)
  {
  }

  lemma DefaultLevelIsRead(view: View)
    requires view.requiredLevel.None?
    ensures RequiredLevel(view) == Value(READ)
  {
  }

  /** With a code declared, the gate answers what `has_admin_perm` answers. */
  lemma DeclaredCodeDelegates(request: Request, view: View, db: Tables, code: string)
    requires view.requiredPermissionCode == Some(code) && code != ""
    ensures HasPermission(request, view, db) == HasAdminPerm(request.user, code, RequiredLevel(view), db)
  {
  }

  /** With a code declared, a superuser passes at every level and at the default one. */
  lemma SuperuserPassesEveryLevel(u: User, view: View, db: Tables)
    requires DeclaresCode(view) && u.isAuthenticated && u.isSuperuser
    ensures forall l: Level :: HasPermission(Request(Some(u)), view.(requiredLevel := Some(Value(l))), db)
    ensures HasPermission(Request(Some(u)), view.(requiredLevel := None), db)
  {
  }

  /** A request without an authenticated user is denied whenever the view requires more than NONE. */
  lemma UnauthenticatedDeniedAboveNone(request: Request, view: View, db: Tables)
    requires request.user.None? || !request.user.value.isAuthenticated
    requires RequiredLevel(view) > Value(NONE)
    ensures !HasPermission(request, view, db)
  {
  }

  /**
   * For a regular user on a view with a code and no declared level, access is
   * granted exactly when some qualifying grant on the code's active
   * permission row is at least READ.
   */
  lemma DefaultGateNeedsAReadGrant(request: Request, view: View, db: Tables, p: Row<PermissionData>)
    requires DeclaresCode(view) && view.requiredLevel.None?
    requires IsRegularUser(request.user) && UniqueCodes(db.perms)
    requires p in db.perms && IsActivePermission(p, view.requiredPermissionCode.value)
    ensures HasPermission(request, view, db) <==>
      exists g | g in db.grants && Qualifies(db, request.user.value.id, p.id, g) :: Includes(g.data.level, READ)
  {
    HasAdminPermIffQualifyingGrantReaches(request.user, view.requiredPermissionCode.value, Value(READ), db, p);
  }
}
