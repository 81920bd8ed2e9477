/**
 * What the seeder promises for the catalogue and the four system roles it
 * ships with, down to the levels the resolver then returns to their members.
 */
module SeedCatalogue {
  import opened Wrappers
  import opened PermissionLevels
  import opened SoftDeleteModel
  import opened DashboardModels
  import opened PermissionService
  import opened SeedSpec
  import opened SeedSteps
  import opened SeedProperties

  /** The shipped catalogue: fourteen entries, no code twice. */
  lemma ShippedCatalogueIsDistinct()
    ensures |Permissions| == 14 && DistinctCodes(Permissions)
  {
    var codes := ["admin.roles", "content.grade", "content.subject", "content.course", "content.placement",
                  "content.module", "content.lesson", "content.block", "content.publish", "users.view",
                  "relationships.view", "enrollments.manage", "purchases.view", "purchases.refund"];
    assert forall i | 0 <= i < 14 :: Permissions[i].code == codes[i];
    assert forall i, j | 0 <= i < j < 14 :: codes[i] != codes[j];
  }

  /**
   * The shipped roles: four distinct names and slugs, no code twice in one policy; Super
   * Admin is the one wildcard policy, at ADMIN.
   */
  lemma ShippedRolesAreDistinct()
    ensures |SystemRoles| == 4 && DistinctSlugs(SystemRoles) && DistinctNames(SystemRoles)
    ensures forall k | 0 <= k < |SystemRoles| :: DistinctKeys(SystemRoles[k].policy)
    ensures SystemRoles[0].slug == "super-admin" && HasWildcard(SystemRoles[0].policy)
    ensures WildcardLevel(SystemRoles[0].policy) == ADMIN
    ensures forall k | 1 <= k < |SystemRoles| :: !HasWildcard(SystemRoles[k].policy)
  {
    assert SystemRoles[0].policy[0].0 == Wildcard;
  }

  /** Every explicit entry of a shipped policy names a code of the shipped catalogue. */
  lemma ShippedPoliciesNameCatalogueCodes()
    ensures forall k, i | 1 <= k < |SystemRoles| && 0 <= i < |SystemRoles[k].policy| ::
      DeclaresCode(Permissions, SystemRoles[k].policy[i].0)
  {
    assert forall i | 0 <= i < 8 :: SystemRoles[1].policy[i].0 == Permissions[i + 1].code;
    assert forall i | 0 <= i < 3 :: SystemRoles[2].policy[i].0 == Permissions[i + 9].code;
    assert forall i | 0 <= i < 2 :: SystemRoles[3].policy[i].0 == Permissions[i + 12].code;
  }

  /** The shipped run writes no "Permission code missing" warning, whatever the tables held. */
  lemma ShippedSeedWarnsNothing(p: TableState<PermissionData>, r: TableState<RoleData>, g: TableState<GrantData>)
    ensures Seed(p, r, g, Permissions, SystemRoles).warnings == []
  {
    var ps := SeedPermissions(p, Permissions);
    ShippedRolesAreDistinct();
    ShippedPoliciesNameCatalogueCodes();
    SeedPermissionsCodesAreDeclared(p, Permissions);
    KnownCodesWarnNothing(r, g, SystemRoles, ps.permMap, ps.codes);
  }

  /** Running the shipped seeder a second time after a complete run changes nothing. */
  lemma ShippedSeedIsIdempotent(p: TableState<PermissionData>, r: TableState<RoleData>, g: TableState<GrantData>)
    requires PermTableOk(p) && RoleTableOk(r)
    requires Seed(p, r, g, Permissions, SystemRoles).ok
    ensures var s := Seed(p, r, g, Permissions, SystemRoles);
      Seed(s.perms, s.roles, s.grants, Permissions, SystemRoles) == s
  {
    ShippedCatalogueIsDistinct();
    ShippedRolesAreDistinct();
    SeedIsIdempotent(p, r, g, Permissions, SystemRoles);
  }

  /**
   * The shipped run completes whenever no role row carries a system role's
   * name under another slug, whatever the other tables hold.
   */
  lemma ShippedSeedCompletes(p: TableState<PermissionData>, r: TableState<RoleData>, g: TableState<GrantData>)
    requires RoleTableOk(r) && NoNameClash(r.rows, SystemRoles)
    ensures Seed(p, r, g, Permissions, SystemRoles).ok
  {
    ShippedRolesAreDistinct();
    SeedCompletes(p, r, g, Permissions, SystemRoles);
  }

  /**
   * On an empty database the shipped run completes, and Super Admin ends
   * with exactly fourteen grants, one per catalogue code, each alive at ADMIN.
   */
  lemma ShippedSeedOnEmptyTables(pNext: nat, rNext: nat, gNext: nat)
    ensures var s := Seed(TableState([], pNext), TableState([], rNext), TableState([], gNext), Permissions, SystemRoles);
      && s.ok
      && RoleSeeded(s.roles.rows, "Super Admin", "super-admin")
      && var superGrants := set x | x in s.grants.rows && x.data.role == RoleKey(s.roles.rows, "super-admin");
      && |superGrants| == |Permissions| == 14
      && forall x | x in superGrants :: x.deletedAt.None? && x.data.level == ADMIN
  {
    ShippedCatalogueIsDistinct();
    ShippedRolesAreDistinct();
    ShippedSeedCompletes(TableState([], pNext), TableState([], rNext), TableState([], gNext));
    WildcardRoleOnEmptyTables(pNext, rNext, gNext, Permissions, SystemRoles, 0);
  }

  /**
   * Whatever the tables held, a complete shipped run leaves Super Admin with
   * exactly one grant per catalogue code on the catalogue's rows, fourteen in
   * all, each alive at ADMIN.
   */
  lemma ShippedSuperAdminHoldsEveryCode(p: TableState<PermissionData>, r: TableState<RoleData>, g: TableState<GrantData>)
    requires PermTableOk(p) && RoleTableOk(r) && GrantTableOk(g)
    requires Seed(p, r, g, Permissions, SystemRoles).ok
    ensures var s := Seed(p, r, g, Permissions, SystemRoles);
      && RoleSeeded(s.roles.rows, "Super Admin", "super-admin")
      && var held := GrantsOn(s.grants.rows, RoleKey(s.roles.rows, "super-admin"), DeclaredKeys(s.perms.rows, Permissions));
      && |held| == 14
      && forall x | x in held :: x.deletedAt.None? && x.data.level == ADMIN
  {
    ShippedCatalogueIsDistinct();
    ShippedRolesAreDistinct();
    WildcardRoleHoldsOneGrantPerCode(p, r, g, Permissions, SystemRoles, 0);
  }

  /** The tables a request sees after a run, with the memberships the seeder does not touch. */
  function AfterSeed(p: TableState<PermissionData>, r: TableState<RoleData>, g: TableState<GrantData>,
                     permDecls: seq<PermissionDecl>, roleDecls: seq<RoleDecl>, members: seq<Row<MembershipData>>): Tables
  {
    var s := Seed(p, r, g, permDecls, roleDecls);
    Tables(s.perms.rows, s.roles.rows, s.grants.rows, members)
  }

  /** The tables a request sees after a run of the shipped seeder. */
  function SeededTables(p: TableState<PermissionData>, r: TableState<RoleData>, g: TableState<GrantData>,
                        members: seq<Row<MembershipData>>): Tables
  {
    AfterSeed(p, r, g, Permissions, SystemRoles, members)
  }

  /** The user has an active, alive membership in the role row with that slug. */
  predicate HoldsRole(db: Tables, userId: nat, slug: string) {
    exists m, x | m in db.members && x in db.roles :: x.data.slug == slug && IsActiveMembership(m, userId, x.id)
  }

  /**
   * A grant left alive at `level` on the live permission with `code`, for a
   * live role the user holds, lifts the resolved level to at least `level`.
   */
  lemma SeededGrantReachesItsLevel(user: Option<User>, db: Tables, code: string, level: Level,
                                   role: Row<RoleData>, m: Row<MembershipData>)
    requires IsRegularUser(user) && UniqueCodes(db.perms)
    requires role in db.roles && role.deletedAt.None? && role.data.isActive
    requires m in db.members && IsActiveMembership(m, user.value.id, role.id)
    requires PermissionLive(db.perms, code)
    requires GrantSeeded(db.grants, role.id, PermissionKey(db.perms, code), level)
    ensures Includes(ResolveAdminLevel(user, code, db), level)
  {
    var perm := db.perms[FindByCode(db.perms, code).value];
    var grant := db.grants[FindGrant(db.grants, role.id, perm.id).value];
    ResolveIsGreatestQualifyingLevel(user, code, db, perm);
    assert IsActiveRole(role, grant.data.role);
    assert Qualifies(db, user.value.id, perm.id, grant);
  }

  /** With unique slugs, a member of the role with a slug is a member of the row the slug finds. */
  lemma HeldRoleIsFoundBySlug(roles: seq<Row<RoleData>>, members: seq<Row<MembershipData>>, userId: nat, slug: string)
    requires UniqueRoleSlugs(roles)
    requires exists m, x | m in members && x in roles :: x.data.slug == slug && IsActiveMembership(m, userId, x.id)
    ensures FindBySlug(roles, slug).Some?
    ensures exists m | m in members :: IsActiveMembership(m, userId, RoleKey(roles, slug))
  {
    var m, x :| m in members && x in roles && x.data.slug == slug && IsActiveMembership(m, userId, x.id);
    var j :| 0 <= j < |roles| && roles[j] == x;
    var k := FindBySlug(roles, slug).value;
    assert roles[k] == x;
  }

  /**
   * After a complete run, a member of a role with a wildcard policy resolves,
   * on every declared code, to at least the wildcard's level.
   */
  lemma WildcardMembersReachTheLevel(p: TableState<PermissionData>, r: TableState<RoleData>, g: TableState<GrantData>,
                                     permDecls: seq<PermissionDecl>, roleDecls: seq<RoleDecl>,
                                     members: seq<Row<MembershipData>>, user: Option<User>, k: nat)
    requires PermTableOk(p) && RoleTableOk(r) && DistinctSlugs(roleDecls)
    requires forall j | 0 <= j < |roleDecls| :: DistinctKeys(roleDecls[j].policy)
    requires Seed(p, r, g, permDecls, roleDecls).ok
    requires k < |roleDecls| && HasWildcard(roleDecls[k].policy)
    requires IsRegularUser(user) && HoldsRole(AfterSeed(p, r, g, permDecls, roleDecls, members), user.value.id, roleDecls[k].slug)
    ensures forall n | 0 <= n < |permDecls| ::
      Includes(ResolveAdminLevel(user, permDecls[n].code, AfterSeed(p, r, g, permDecls, roleDecls, members)),
               WildcardLevel(roleDecls[k].policy))
  {
    var s := Seed(p, r, g, permDecls, roleDecls);
    var db := AfterSeed(p, r, g, permDecls, roleDecls, members);
    var ps := SeedPermissions(p, permDecls);
    SeedPermissionsKeepsTable(p, permDecls);
    SeedRolesKeepsRoleTable(r, g, roleDecls, ps.permMap, ps.codes);
    HeldRoleIsFoundBySlug(s.roles.rows, members, user.value.id, roleDecls[k].slug);
    SeedGrantsWildcardPolicies(p, r, g, permDecls, roleDecls);
    var role := s.roles.rows[FindBySlug(s.roles.rows, roleDecls[k].slug).value];
    var m :| m in members && IsActiveMembership(m, user.value.id, role.id);
    forall n | 0 <= n < |permDecls|
      ensures Includes(ResolveAdminLevel(user, permDecls[n].code, db), WildcardLevel(roleDecls[k].policy))
    {
      SeededGrantReachesItsLevel(user, db, permDecls[n].code, WildcardLevel(roleDecls[k].policy), role, m);
    }
  }

  /**
   * After a complete run, a member of a role with an explicit policy passes
   * `has_admin_perm` for each entry whose code is declared, at the entry's level.
   */
  lemma ExplicitMembersReachTheirLevels(p: TableState<PermissionData>, r: TableState<RoleData>, g: TableState<GrantData>,
                                        permDecls: seq<PermissionDecl>, roleDecls: seq<RoleDecl>,
                                        members: seq<Row<MembershipData>>, user: Option<User>, k: nat)
    requires PermTableOk(p) && RoleTableOk(r) && DistinctSlugs(roleDecls)
    requires forall j | 0 <= j < |roleDecls| :: DistinctKeys(roleDecls[j].policy)
    requires Seed(p, r, g, permDecls, roleDecls).ok
    requires k < |roleDecls| && !HasWildcard(roleDecls[k].policy)
    requires IsRegularUser(user) && HoldsRole(AfterSeed(p, r, g, permDecls, roleDecls, members), user.value.id, roleDecls[k].slug)
    ensures forall i | 0 <= i < |roleDecls[k].policy| && DeclaresCode(permDecls, roleDecls[k].policy[i].0) ::
      HasAdminPerm(user, roleDecls[k].policy[i].0, Value(roleDecls[k].policy[i].1), AfterSeed(p, r, g, permDecls, roleDecls, members))
  {
    var s := Seed(p, r, g, permDecls, roleDecls);
    var db := AfterSeed(p, r, g, permDecls, roleDecls, members);
    var policy := roleDecls[k].policy;
    var ps := SeedPermissions(p, permDecls);
    SeedPermissionsKeepsTable(p, permDecls);
    SeedRolesKeepsRoleTable(r, g, roleDecls, ps.permMap, ps.codes);
    HeldRoleIsFoundBySlug(s.roles.rows, members, user.value.id, roleDecls[k].slug);
    SeedGrantsExplicitPolicies(p, r, g, permDecls, roleDecls);
    var role := s.roles.rows[FindBySlug(s.roles.rows, roleDecls[k].slug).value];
    var m :| m in members && IsActiveMembership(m, user.value.id, role.id);
    forall i | 0 <= i < |policy| && DeclaresCode(permDecls, policy[i].0)
      ensures HasAdminPerm(user, policy[i].0, Value(policy[i].1), db)
    {
      SeededGrantReachesItsLevel(user, db, policy[i].0, policy[i].1, role, m);
    }
  }

  /**
   * After a complete shipped run, every member of Super Admin resolves to
   * ADMIN on every catalogue code.
   */
  lemma SuperAdminMembersResolveAdmin(p: TableState<PermissionData>, r: TableState<RoleData>, g: TableState<GrantData>,
                                      members: seq<Row<MembershipData>>, user: Option<User>)
    requires PermTableOk(p) && RoleTableOk(r)
    requires Seed(p, r, g, Permissions, SystemRoles).ok
    requires IsRegularUser(user) && HoldsRole(SeededTables(p, r, g, members), user.value.id, "super-admin")
    ensures forall n | 0 <= n < |Permissions| :: ResolveAdminLevel(user, Permissions[n].code, SeededTables(p, r, g, members)) == ADMIN
  {
    var db := SeededTables(p, r, g, members);
    ShippedRolesAreDistinct();
    WildcardMembersReachTheLevel(p, r, g, Permissions, SystemRoles, members, user, 0);
    forall n | 0 <= n < |Permissions| ensures ResolveAdminLevel(user, Permissions[n].code, db) == ADMIN {
      NoneIsLeastAdminIsGreatest(ResolveAdminLevel(user, Permissions[n].code, db));
      IncludesIsTotalOrder(ResolveAdminLevel(user, Permissions[n].code, db), ADMIN, ADMIN);
    }
  }

  /**
   * After a complete shipped run, a member of Content, Support or Finance
   * Admin passes `has_admin_perm` for every entry of that role's policy at the
   * entry's level: content.publish at WRITE for Content Admin, for instance.
   */
  lemma SystemRoleMembersReachTheirLevels(p: TableState<PermissionData>, r: TableState<RoleData>, g: TableState<GrantData>,
                                          members: seq<Row<MembershipData>>, user: Option<User>, k: nat)
    requires PermTableOk(p) && RoleTableOk(r) && 1 <= k < |SystemRoles|
    requires Seed(p, r, g, Permissions, SystemRoles).ok
    requires IsRegularUser(user) && HoldsRole(SeededTables(p, r, g, members), user.value.id, SystemRoles[k].slug)
    ensures forall i | 0 <= i < |SystemRoles[k].policy| ::
      HasAdminPerm(user, SystemRoles[k].policy[i].0, Value(SystemRoles[k].policy[i].1), SeededTables(p, r, g, members))
  {
    ShippedRolesAreDistinct();
    ShippedPoliciesNameCatalogueCodes();
    ExplicitMembersReachTheirLevels(p, r, g, Permissions, SystemRoles, members, user, k);
  }

  /**
   * After a complete shipped run, Content Admin's grant on content.publish is
   * alive at WRITE, not ADMIN.
   */
  lemma ContentPublishIsSeededAtWrite(p: TableState<PermissionData>, r: TableState<RoleData>, g: TableState<GrantData>)
    requires PermTableOk(p) && RoleTableOk(r)
    requires Seed(p, r, g, Permissions, SystemRoles).ok
    ensures var s := Seed(p, r, g, Permissions, SystemRoles);
      && RoleSeeded(s.roles.rows, "Content Admin", "content-admin")
      && PermissionLive(s.perms.rows, "content.publish")
      && GrantSeeded(s.grants.rows, RoleKey(s.roles.rows, "content-admin"), PermissionKey(s.perms.rows, "content.publish"), WRITE)
  {
    ShippedRolesAreDistinct();
    ShippedPoliciesNameCatalogueCodes();
    SeedGrantsExplicitPolicies(p, r, g, Permissions, SystemRoles);
    assert SystemRoles[1].name == "Content Admin" && SystemRoles[1].slug == "content-admin";
    assert SystemRoles[1].policy[7] == ("content.publish", WRITE);
  }
}
