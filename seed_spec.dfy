/**
 * What the RBAC seeder computes, as functions of the tables it starts from:
 * an additive, corrective upsert of a declared permission catalogue and of
 * system roles with their policies. Each step is stated by the rows it leaves;
 * the folds run over a prefix of the declarations, as the seeder's loops do.
 */
module SeedSpec {
  import opened Wrappers
  import opened PermissionLevels
  import opened SoftDeleteModel
  import opened DashboardModels

  /** One catalogue entry: code, display name, description. */
  datatype PermissionDecl = PermissionDecl(code: string, name: string, description: string)

  /**
   * One system role: display name, slug and policy. The policy is a
   * dictionary from permission code (or the wildcard) to level, written as its
   * items in insertion order.
   */
  datatype RoleDecl = RoleDecl(name: string, slug: string, policy: seq<(string, Level)>)

  /** The policy key that stands for every code seeded in the same run. */
  const Wildcard: string := "*"

  /** The catalogue the seeder ships with. */
  const Permissions: seq<PermissionDecl> := [
    PermissionDecl("admin.roles", "Manage Roles & Admin Members", "Create roles, assign/remove admin members"),
    PermissionDecl("content.grade", "Manage Grades", "CRUD grade levels"),
    PermissionDecl("content.subject", "Manage Subjects", "CRUD subjects"),
    PermissionDecl("content.course", "Manage Courses", "CRUD courses"),
    PermissionDecl("content.placement", "Manage Course Placement", "Place courses into grade+subject shelves"),
    PermissionDecl("content.module", "Manage Modules", "CRUD modules"),
    PermissionDecl("content.lesson", "Manage Lessons", "CRUD lessons"),
    PermissionDecl("content.block", "Manage Content Blocks", "CRUD lesson content blocks"),
    PermissionDecl("content.publish", "Publish Content", "Publish/unpublish content"),
    PermissionDecl("users.view", "View Users", "Search and view users"),
    PermissionDecl("relationships.view", "View Parent-Student Links", "View guardian relationships"),
    PermissionDecl("enrollments.manage", "Manage Enrollments", "Grant/revoke/extend enrollments"),
    PermissionDecl("purchases.view", "View Purchases", "View payment and orders"),
    PermissionDecl("purchases.refund", "Refund Purchases", "Issue refunds / reversals")
  ]

  /** The system roles the seeder ships with. */
  const SystemRoles: seq<RoleDecl> := [
    RoleDecl("Super Admin", "super-admin", [(Wildcard, ADMIN)]),
    RoleDecl("Content Admin", "content-admin", [
      ("content.grade", WRITE),
      ("content.subject", WRITE),
      ("content.course", WRITE),
      ("content.placement", WRITE),
      ("content.module", WRITE),
      ("content.lesson", WRITE),
      ("content.block", WRITE),
      ("content.publish", WRITE)
    ]),
    RoleDecl("Support Admin", "support-admin", [
      ("users.view", READ),
      ("relationships.view", READ),
      ("enrollments.manage", WRITE)
    ]),
    RoleDecl("Finance Admin", "finance-admin", [
      ("purchases.view", READ),
      ("purchases.refund", ADMIN)
    ])
  ]

  // ---------------------------------------------------------------------------
  // Lookups by the keys get_or_create uses (over every row, deleted or not)

  function FindByCode(rows: seq<Row<PermissionData>>, code: string): (r: Option<nat>)
    ensures r.Some? ==> r.value < |rows| && rows[r.value].data.code == code
    ensures r.Some? ==> forall j | 0 <= j < r.value :: rows[j].data.code != code
    ensures r.None? ==> forall j | 0 <= j < |rows| :: rows[j].data.code != code
  {
    if rows == [] then None
    else if rows[0].data.code == code then Some(0)
    else match FindByCode(rows[1..], code)
      case None => None
      case Some(k) => Some(k + 1)
  }

  function FindBySlug(rows: seq<Row<RoleData>>, slug: string): (r: Option<nat>)
    ensures r.Some? ==> r.value < |rows| && rows[r.value].data.slug == slug
    ensures r.Some? ==> forall j | 0 <= j < r.value :: rows[j].data.slug != slug
    ensures r.None? ==> forall j | 0 <= j < |rows| :: rows[j].data.slug != slug
  {
    if rows == [] then None
    else if rows[0].data.slug == slug then Some(0)
    else match FindBySlug(rows[1..], slug)
      case None => None
      case Some(k) => Some(k + 1)
  }

  predicate IsGrantOf(g: Row<GrantData>, roleId: nat, permId: nat) {
    g.data.role == roleId && g.data.permission == permId
  }

  function FindGrant(rows: seq<Row<GrantData>>, roleId: nat, permId: nat): (r: Option<nat>)
    ensures r.Some? ==> r.value < |rows| && IsGrantOf(rows[r.value], roleId, permId)
    ensures r.Some? ==> forall j | 0 <= j < r.value :: !IsGrantOf(rows[j], roleId, permId)
    ensures r.None? ==> forall j | 0 <= j < |rows| :: !IsGrantOf(rows[j], roleId, permId)
  {
    if rows == [] then None
    else if IsGrantOf(rows[0], roleId, permId) then Some(0)
    else match FindGrant(rows[1..], roleId, permId)
      case None => None
      case Some(k) => Some(k + 1)
  }

  // ---------------------------------------------------------------------------
  // One step each

  /** A table after one step, and the primary key of the row the step is about. */
  datatype Upserted<T> = Upserted(table: TableState<T>, id: nat)

  /** The fields a catalogue entry prescribes. */
  function DeclaredPermission(d: PermissionDecl): PermissionData {
    PermissionData(d.code, d.name, d.description, true)
  }

  /** The fields the seeder prescribes for a system role. */
  function DeclaredRole(name: string, slug: string): RoleData {
    RoleData(name, slug, true, true)
  }

  /**
   * One catalogue entry: the row with that code, created if absent, restored if
   * deleted, with the declared name and description and active.
   */
  function UpsertPermission(t: TableState<PermissionData>, d: PermissionDecl): Upserted<PermissionData> {
    match FindByCode(t.rows, d.code)
    case Some(k) =>
      Upserted(TableState(t.rows[k := Row(t.rows[k].id, None, DeclaredPermission(d))], t.nextId), t.rows[k].id)
    case None =>
      Upserted(TableState(t.rows + [Row(t.nextId, None, DeclaredPermission(d))], t.nextId + 1), t.nextId)
  }

  /** Some row other than the one at position `k` already carries role name `name`. */
  predicate NameTakenExcept(rows: seq<Row<RoleData>>, name: string, k: nat) {
    exists j | 0 <= j < |rows| && j != k :: rows[j].data.name == name
  }

  /** A role step: the table after it, and the role's key, or `None` when the database refused a write. */
  datatype RoleUpsert = RoleUpsert(table: TableState<RoleData>, roleId: Option<nat>)

  /**
   * One system role: the row with that slug, created if absent, restored if
   * deleted, with the declared name, marked as a system role and active. Role
   * names are unique, so creating the row, or renaming it, fails when another
   * row has the name; a restore done before the failing rename stays.
   */
  function UpsertRole(t: TableState<RoleData>, name: string, slug: string): RoleUpsert {
    match FindBySlug(t.rows, slug)
    case None =>
      if NameTakenExcept(t.rows, name, |t.rows|) then RoleUpsert(t, None)
      else RoleUpsert(TableState(t.rows + [Row(t.nextId, None, DeclaredRole(name, slug))], t.nextId + 1), Some(t.nextId))
    case Some(k) =>
      var current := t.rows[k];
      if current.data == DeclaredRole(name, slug) then
        RoleUpsert(TableState(t.rows[k := Restored(current)], t.nextId), Some(current.id))
      else if current.data.name != name && NameTakenExcept(t.rows, name, k) then
        RoleUpsert(TableState(t.rows[k := Restored(current)], t.nextId), None)
      else
        RoleUpsert(TableState(t.rows[k := Row(current.id, None, DeclaredRole(name, slug))], t.nextId), Some(current.id))
  }

  /**
   * `_upsert_role_perm`: the grant of that role on that permission, created if
   * absent, restored if deleted, at `level`.
   */
  function UpsertGrant(t: TableState<GrantData>, roleId: nat, permId: nat, level: Level): TableState<GrantData> {
    match FindGrant(t.rows, roleId, permId)
    case Some(k) => TableState(t.rows[k := Row(t.rows[k].id, None, GrantData(roleId, permId, level))], t.nextId)
    case None => TableState(t.rows + [Row(t.nextId, None, GrantData(roleId, permId, level))], t.nextId + 1)
  }

  /** `_upsert_role_perm` for each (permission key, level) target in turn. */
  function UpsertGrants(t: TableState<GrantData>, roleId: nat, targets: seq<(nat, Level)>): TableState<GrantData>
    decreases |targets|
  {
    if targets == [] then t
    else
      var last := targets[|targets| - 1];
      UpsertGrant(UpsertGrants(t, roleId, targets[..|targets| - 1]), roleId, last.0, last.1)
  }

  // ---------------------------------------------------------------------------
  // Policies

  predicate HasWildcard(policy: seq<(string, Level)>) {
    exists k | 0 <= k < |policy| :: policy[k].0 == Wildcard
  }

  /** `policy["*"]`. */
  function WildcardLevel(policy: seq<(string, Level)>): (l: Level)
    requires HasWildcard(policy)
    ensures exists k | 0 <= k < |policy| :: policy[k] == (Wildcard, l)
  {
    if policy[0].0 == Wildcard then policy[0].1
    else
      assert HasWildcard(policy[1..]) by {
        var k :| 0 <= k < |policy| && policy[k].0 == Wildcard;
        assert policy[1..][k - 1] == policy[k];
      }
      var l := WildcardLevel(policy[1..]);
      var k :| 0 <= k < |policy[1..]| && policy[1..][k] == (Wildcard, l);
      assert policy[k + 1] == (Wildcard, l);
      l
  }

  /** The wildcard expanded: one target per code seeded in this run, all at `level`. */
  function WildcardTargets(codes: seq<string>, permMap: map<string, nat>, level: Level): (r: seq<(nat, Level)>)
    requires forall c | c in codes :: c in permMap
    ensures |r| == |codes|
    ensures forall k | 0 <= k < |codes| :: r[k] == (permMap[codes[k]], level)
    decreases |codes|
  {
    if codes == [] then []
    else WildcardTargets(codes[..|codes| - 1], permMap, level) + [(permMap[codes[|codes| - 1]], level)]
  }

  /** The targets of a policy without wildcard: its entries whose code is in the map, in order. */
  function EntryTargets(policy: seq<(string, Level)>, permMap: map<string, nat>): (r: seq<(nat, Level)>)
    ensures |r| <= |policy|
    ensures forall t | t in r :: t.0 in permMap.Values
    decreases |policy|
  {
    if policy == [] then []
    else
      var last := policy[|policy| - 1];
      EntryTargets(policy[..|policy| - 1], permMap) + (if last.0 in permMap then [(permMap[last.0], last.1)] else [])
  }

  /** The codes of a policy without wildcard that the map does not know, in order: one warning each. */
  function MissingCodes(policy: seq<(string, Level)>, permMap: map<string, nat>): seq<string>
    decreases |policy|
  {
    if policy == [] then []
    else
      var last := policy[|policy| - 1];
      MissingCodes(policy[..|policy| - 1], permMap) + (if last.0 in permMap then [] else [last.0])
  }

  function PolicyTargets(policy: seq<(string, Level)>, permMap: map<string, nat>, codes: seq<string>): seq<(nat, Level)>
    requires forall c | c in codes :: c in permMap
  {
    if HasWildcard(policy) then WildcardTargets(codes, permMap, WildcardLevel(policy))
    else EntryTargets(policy, permMap)
  }

  function PolicyWarnings(policy: seq<(string, Level)>, permMap: map<string, nat>): seq<string> {
    if HasWildcard(policy) then [] else MissingCodes(policy, permMap)
  }

  // ---------------------------------------------------------------------------
  // The two phases

  /**
   * After the catalogue loop: the permission table, `perm_map` from code to
   * key, and that dictionary's keys in insertion order.
   */
  datatype PermSeed = PermSeed(table: TableState<PermissionData>, permMap: map<string, nat>, codes: seq<string>)

  /** One pass of the catalogue loop: upsert the entry and record it in `perm_map`. */
  function PermissionStep(prev: PermSeed, d: PermissionDecl): PermSeed {
    var u := UpsertPermission(prev.table, d);
    PermSeed(u.table, prev.permMap[d.code := u.id],
             if d.code in prev.permMap then prev.codes else prev.codes + [d.code])
  }

  function SeedPermissions(t: TableState<PermissionData>, ds: seq<PermissionDecl>): (r: PermSeed)
    ensures forall c :: c in r.codes <==> c in r.permMap
    decreases |ds|
  {
    if ds == [] then PermSeed(t, map[], [])
    else PermissionStep(SeedPermissions(t, ds[..|ds| - 1]), ds[|ds| - 1])
  }

  /** After the role loop: the role and grant tables, the warnings written, and whether it ran to the end. */
  datatype RoleSeed = RoleSeed(roles: TableState<RoleData>, grants: TableState<GrantData>, warnings: seq<string>, ok: bool)

  /** One pass of the role loop: upsert the role, then apply its policy; nothing once the loop has stopped. */
  function RoleStep(prev: RoleSeed, d: RoleDecl, permMap: map<string, nat>, codes: seq<string>): RoleSeed
    requires forall c | c in codes :: c in permMap
  {
    if !prev.ok then prev
    else
      var u := UpsertRole(prev.roles, d.name, d.slug);
      if u.roleId.None? then RoleSeed(u.table, prev.grants, prev.warnings, false)
      else RoleSeed(u.table,
                    UpsertGrants(prev.grants, u.roleId.value, PolicyTargets(d.policy, permMap, codes)),
                    prev.warnings + PolicyWarnings(d.policy, permMap),
                    true)
  }

  /** The role loop; it stops at the first role the database refuses. */
  function SeedRoles(r: TableState<RoleData>, g: TableState<GrantData>, ds: seq<RoleDecl>,
                     permMap: map<string, nat>, codes: seq<string>): RoleSeed
    requires forall c | c in codes :: c in permMap
    decreases |ds|
  {
    if ds == [] then RoleSeed(r, g, [], true)
    else RoleStep(SeedRoles(r, g, ds[..|ds| - 1], permMap, codes), ds[|ds| - 1], permMap, codes)
  }

  datatype SeedResult = SeedResult(
    perms: TableState<PermissionData>,
    roles: TableState<RoleData>,
    grants: TableState<GrantData>,
    warnings: seq<string>,
    ok: bool)

  /** The whole run: the catalogue first, then the roles against the codes it seeded. */
  function Seed(p: TableState<PermissionData>, r: TableState<RoleData>, g: TableState<GrantData>,
                permDecls: seq<PermissionDecl>, roleDecls: seq<RoleDecl>): SeedResult
  {
    var ps := SeedPermissions(p, permDecls);
    var rs := SeedRoles(r, g, roleDecls, ps.permMap, ps.codes);
    SeedResult(ps.table, rs.roles, rs.grants, rs.warnings, rs.ok)
  }
}
