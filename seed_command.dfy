/**
 * The `seed_dashboard_rbac` management command, run against the store: the
 * catalogue loop, the role loop, and `_upsert_role_perm`, each proved to leave
 * the tables the seeder's specification describes.
 */
module SeedCommand {
  import opened Wrappers
  import opened PermissionLevels
  import opened SoftDeleteModel
  import opened DashboardModels
  import opened SeedSpec
  import opened SeedSteps
  import opened SeedProperties
  import opened SeedCatalogue

  /**
   * One catalogue entry: `get_or_create` by code over every row, then restore,
   * then correct the name, description and active flag where they drifted.
   */
  method UpsertPermissionRow(t: Table<PermissionData>, d: PermissionDecl) returns (id: nat)
    requires t.Valid()
    modifies t
    ensures t.Valid()
    ensures Upserted(t.State(), id) == UpsertPermission(old(t.State()), d)
  {
    var found := FindByCode(t.rows, d.code);
    var k: nat;
    if found.Some? {
      k := found.value;
      id := t.rows[k].id;
    } else {
      k := |t.rows|;
      id := t.Create(DeclaredPermission(d));
    }
    IndexOfUniqueId(t.rows, k);
    if t.rows[k].deletedAt.Some? {
      var _ := t.Restore(id);
    }
    var data := t.rows[k].data;
    var changed := false;
    if data.name != d.name {
      data := data.(name := d.name);
      changed := true;
    }
    if data.description != d.description {
      data := data.(description := d.description);
      changed := true;
    }
    if !data.isActive {
      data := data.(isActive := true);
      changed := true;
    }
    if changed {
      IndexOfUniqueId(t.rows, k);
      var _ := t.Save(id, data);
    }
  }

  /**
   * The three field checks of the role loop: the fields it corrects, named as
   * in `update_fields`, and the row's data once corrected.
   */
  method CorrectRoleFields(data: RoleData, name: string) returns (fixed: RoleData, updateFields: seq<string>)
    ensures fixed == RoleData(name, data.slug, true, true)
    ensures "name" in updateFields <==> data.name != name
    ensures updateFields == [] <==> data == fixed
  {
    fixed := data;
    updateFields := [];
    if fixed.name != name {
      fixed := fixed.(name := name);
      updateFields := updateFields + ["name"];
    }
    if !fixed.isSystemRole {
      fixed := fixed.(isSystemRole := true);
      updateFields := updateFields + ["is_system_role"];
    }
    if !fixed.isActive {
      fixed := fixed.(isActive := true);
      updateFields := updateFields + ["is_active"];
    }
  }

  /**
   * One system role: `get_or_create` by slug over every row, then restore, then
   * correct the name and flags. `None` is the IntegrityError raised when the
   * insert, or the rename, collides with another role's name; a restore done
   * before a failing rename has already been written.
   */
  method UpsertRoleRow(t: Table<RoleData>, name: string, slug: string) returns (roleId: Option<nat>)
    requires t.Valid()
    modifies t
    ensures t.Valid()
    ensures RoleUpsert(t.State(), roleId) == UpsertRole(old(t.State()), name, slug)
  {
    var found := FindBySlug(t.rows, slug);
    var k: nat;
    var id: nat;
    if found.Some? {
      k := found.value;
      id := t.rows[k].id;
    } else {
      if NameTakenExcept(t.rows, name, |t.rows|) {
        return None;
      }
      k := |t.rows|;
      id := t.Create(DeclaredRole(name, slug));
    }
    // the unique index on name, which restoring the row does not touch
    var nameTaken := NameTakenExcept(t.rows, name, k);
    IndexOfUniqueId(t.rows, k);
    if t.rows[k].deletedAt.Some? {
      var _ := t.Restore(id);
    }
    var data, updateFields := CorrectRoleFields(t.rows[k].data, name);
    if updateFields != [] {
      if "name" in updateFields && nameTaken {
        return None;
      }
      IndexOfUniqueId(t.rows, k);
      var _ := t.Save(id, data);
    }
    roleId := Some(id);
  }

  /** `_upsert_role_perm`: `get_or_create` by (role, permission), restore, correct the level. */
  method UpsertRolePerm(t: Table<GrantData>, roleId: nat, permId: nat, level: Level)
    requires t.Valid()
    modifies t
    ensures t.Valid()
    ensures t.State() == UpsertGrant(old(t.State()), roleId, permId, level)
  {
    var found := FindGrant(t.rows, roleId, permId);
    var k: nat;
    var id: nat;
    if found.Some? {
      k := found.value;
      id := t.rows[k].id;
    } else {
      k := |t.rows|;
      id := t.Create(GrantData(roleId, permId, level));
    }
    IndexOfUniqueId(t.rows, k);
    if t.rows[k].deletedAt.Some? {
      var _ := t.Restore(id);
    }
    if t.rows[k].data.level != level {
      IndexOfUniqueId(t.rows, k);
      var _ := t.Save(id, t.rows[k].data.(level := level));
    }
  }

  /** A wildcard policy: one grant at `level` for every code seeded in this run, in order. */
  method ApplyWildcard(t: Table<GrantData>, roleId: nat, codes: seq<string>, permMap: map<string, nat>, level: Level)
    requires t.Valid()
    requires forall c | c in codes :: c in permMap
    modifies t
    ensures t.Valid()
    ensures t.State() == UpsertGrants(old(t.State()), roleId, WildcardTargets(codes, permMap, level))
  {
    ghost var t0 := t.State();
    ghost var targets := WildcardTargets(codes, permMap, level);
    var i := 0;
    while i < |codes|
      invariant 0 <= i <= |codes|
      invariant t.Valid()
      invariant t.State() == UpsertGrants(t0, roleId, targets[..i])
    {
      assert targets[..i + 1] == targets[..i] + [(permMap[codes[i]], level)];
      UpsertGrantsSnoc(t0, roleId, targets[..i], (permMap[codes[i]], level));
      UpsertRolePerm(t, roleId, permMap[codes[i]], level);
      i := i + 1;
    }
    assert targets[..|codes|] == targets;
  }

  /** A policy without wildcard: each entry in order; an unknown code is reported and skipped. */
  method ApplyEntries(t: Table<GrantData>, roleId: nat, policy: seq<(string, Level)>, permMap: map<string, nat>)
    returns (warnings: seq<string>)
    requires t.Valid()
    modifies t
    ensures t.Valid()
    ensures t.State() == UpsertGrants(old(t.State()), roleId, EntryTargets(policy, permMap))
    ensures warnings == MissingCodes(policy, permMap)
  {
    ghost var t0 := t.State();
    warnings := [];
    var i := 0;
    while i < |policy|
      invariant 0 <= i <= |policy|
      invariant t.Valid()
      invariant t.State() == UpsertGrants(t0, roleId, EntryTargets(policy[..i], permMap))
      invariant warnings == MissingCodes(policy[..i], permMap)
    {
      var code, level := policy[i].0, policy[i].1;
      ghost var done := EntryTargets(policy[..i], permMap);
      EntryStep(policy, permMap, i);
      if code !in permMap {
        assert EntryTargets(policy[..i + 1], permMap) == done;
        warnings := warnings + [code];
      } else {
        assert EntryTargets(policy[..i + 1], permMap) == done + [(permMap[code], level)];
        UpsertGrantsSnoc(t0, roleId, done, (permMap[code], level));
        UpsertRolePerm(t, roleId, permMap[code], level);
      }
      i := i + 1;
    }
    assert policy[..|policy|] == policy;
  }

  /** The catalogue loop; `codes` are the keys of `perm_map` in insertion order. */
  method SeedPermissionRows(t: Table<PermissionData>, ds: seq<PermissionDecl>)
    returns (permMap: map<string, nat>, codes: seq<string>)
    requires t.Valid()
    modifies t
    ensures t.Valid()
    ensures PermSeed(t.State(), permMap, codes) == SeedPermissions(old(t.State()), ds)
  {
    ghost var t0 := t.State();
    permMap := map[];
    codes := [];
    var i := 0;
    while i < |ds|
      invariant 0 <= i <= |ds|
      invariant t.Valid()
      invariant PermSeed(t.State(), permMap, codes) == SeedPermissions(t0, ds[..i])
    {
      assert ds[..i + 1] == ds[..i] + [ds[i]];
      SeedPermissionsSnoc(t0, ds[..i], ds[i]);
      var d := ds[i];
      var id := UpsertPermissionRow(t, d);
      if d.code !in permMap {
        codes := codes + [d.code];
      }
      permMap := permMap[d.code := id];
      i := i + 1;
    }
    assert ds[..|ds|] == ds;
  }

  /** One pass of the role loop: the role, then its policy; the warnings so far come in and go out. */
  method SeedRole(roles: Table<RoleData>, grants: Table<GrantData>, d: RoleDecl,
                  permMap: map<string, nat>, codes: seq<string>, warningsIn: seq<string>)
    returns (warnings: seq<string>, ok: bool)
    requires roles.Valid() && grants.Valid()
    requires forall c | c in codes :: c in permMap
    modifies roles, grants
    ensures roles.Valid() && grants.Valid()
    ensures RoleSeed(roles.State(), grants.State(), warnings, ok)
         == RoleStep(RoleSeed(old(roles.State()), old(grants.State()), warningsIn, true), d, permMap, codes)
  {
    warnings := warningsIn;
    var roleId := UpsertRoleRow(roles, d.name, d.slug);
    if roleId.None? {
      return warnings, false;
    }
    if HasWildcard(d.policy) {
      ApplyWildcard(grants, roleId.value, codes, permMap, WildcardLevel(d.policy));
    } else {
      var w := ApplyEntries(grants, roleId.value, d.policy, permMap);
      warnings := warnings + w;
    }
    ok := true;
  }

  /** The role loop, against the codes the catalogue loop seeded; it stops at the first refused role. */
  method SeedRoleRows(roles: Table<RoleData>, grants: Table<GrantData>, ds: seq<RoleDecl>,
                      permMap: map<string, nat>, codes: seq<string>)
    returns (warnings: seq<string>, ok: bool)
    requires roles.Valid() && grants.Valid()
    requires forall c | c in codes :: c in permMap
    modifies roles, grants
    ensures roles.Valid() && grants.Valid()
    ensures RoleSeed(roles.State(), grants.State(), warnings, ok) == SeedRoles(old(roles.State()), old(grants.State()), ds, permMap, codes)
  {
    ghost var r0, g0 := roles.State(), grants.State();
    warnings := [];
    var j := 0;
    while j < |ds|
      invariant 0 <= j <= |ds|
      invariant roles.Valid() && grants.Valid()
      invariant RoleSeed(roles.State(), grants.State(), warnings, true) == SeedRoles(r0, g0, ds[..j], permMap, codes)
    {
      assert ds[..j + 1] == ds[..j] + [ds[j]];
      SeedRolesSnoc(r0, g0, ds[..j], ds[j], permMap, codes);
      warnings, ok := SeedRole(roles, grants, ds[j], permMap, codes, warnings);
      if !ok {
        SeedRolesStopsAtFailure(r0, g0, ds, j + 1, permMap, codes);
        return;
      }
      j := j + 1;
    }
    assert ds[..|ds|] == ds;
    ok := true;
  }

  /**
   * `handle`: the catalogue, then the system roles with their policies. Nothing
   * runs in a transaction: when a role is refused (`ok` false) the command stops
   * there and what it wrote before stays. Memberships are never touched, and
   * the store keeps every constraint.
   */
  method Run(db: RbacStore, permDecls: seq<PermissionDecl>, roleDecls: seq<RoleDecl>)
    returns (warnings: seq<string>, ok: bool)
    requires db.Valid()
    modifies db.perms, db.roles, db.grants
    ensures db.Valid()
    ensures SeedResult(db.perms.State(), db.roles.State(), db.grants.State(), warnings, ok)
         == Seed(old(db.perms.State()), old(db.roles.State()), old(db.grants.State()), permDecls, roleDecls)
  {
    SeedKeepsConstraints(db.Snapshot(), db.perms.nextId, db.roles.nextId, db.grants.nextId, permDecls, roleDecls);
    var permMap, codes := SeedPermissionRows(db.perms, permDecls);
    warnings, ok := SeedRoleRows(db.roles, db.grants, roleDecls, permMap, codes);
  }

  /**
   * `handle`: the run over the shipped catalogue and system roles. It never
   * warns about a missing code; it completes unless a role row already carries
   * a system role's name under another slug; and a run that completes can be
   * repeated without changing anything.
   */
  method Handle(db: RbacStore) returns (warnings: seq<string>, ok: bool)
    requires db.Valid()
    modifies db.perms, db.roles, db.grants
    ensures db.Valid()
    ensures SeedResult(db.perms.State(), db.roles.State(), db.grants.State(), warnings, ok)
         == Seed(old(db.perms.State()), old(db.roles.State()), old(db.grants.State()), Permissions, SystemRoles)
    ensures warnings == []
    ensures NoNameClash(old(db.roles.rows), SystemRoles) ==> ok
    ensures ok ==> (Seed(db.perms.State(), db.roles.State(), db.grants.State(), Permissions, SystemRoles)
                    == SeedResult(db.perms.State(), db.roles.State(), db.grants.State(), warnings, ok))
  {
    ghost var p, r, g := db.perms.State(), db.roles.State(), db.grants.State();
    ShippedSeedWarnsNothing(p, r, g);
    assert PermTableOk(p) && RoleTableOk(r);
    if Seed(p, r, g, Permissions, SystemRoles).ok {
      ShippedSeedIsIdempotent(p, r, g);
    }
    if NoNameClash(r.rows, SystemRoles) {
      ShippedSeedCompletes(p, r, g);
    }
    warnings, ok := Run(db, Permissions, SystemRoles);
  }
}
