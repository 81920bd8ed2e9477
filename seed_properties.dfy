/**
 * Properties of a whole seeding run: it is additive, it leaves every declared
 * row exactly as declared, and running it again changes nothing.
 */
module SeedProperties {
  import opened Wrappers
  import opened PermissionLevels
  import opened SoftDeleteModel
  import opened DashboardModels
  import opened SeedSpec
  import opened SeedSteps

  lemma SeedPermissionsSnoc(t: TableState<PermissionData>, ds: seq<PermissionDecl>, d: PermissionDecl)
    ensures SeedPermissions(t, ds + [d]) == PermissionStep(SeedPermissions(t, ds), d)
  {
    assert (ds + [d])[..|ds|] == ds;
  }

  lemma SeedRolesSnoc(r: TableState<RoleData>, g: TableState<GrantData>, ds: seq<RoleDecl>, d: RoleDecl,
                      permMap: map<string, nat>, codes: seq<string>)
    requires forall c | c in codes :: c in permMap
    ensures SeedRoles(r, g, ds + [d], permMap, codes) == RoleStep(SeedRoles(r, g, ds, permMap, codes), d, permMap, codes)
  {
    assert (ds + [d])[..|ds|] == ds;
  }

  /** Once a role is refused, the loop has stopped: later roles change nothing. */
  lemma {:induction false} SeedRolesStopsAtFailure(r: TableState<RoleData>, g: TableState<GrantData>, ds: seq<RoleDecl>,
                                                   n: nat, permMap: map<string, nat>, codes: seq<string>)
    requires forall c | c in codes :: c in permMap
    requires n <= |ds| && !SeedRoles(r, g, ds[..n], permMap, codes).ok
    ensures SeedRoles(r, g, ds, permMap, codes) == SeedRoles(r, g, ds[..n], permMap, codes)
    decreases |ds|
  {
    if n == |ds| {
      assert ds[..n] == ds;
    } else {
      var init := ds[..|ds| - 1];
      assert init[..n] == ds[..n];
      SeedRolesStopsAtFailure(r, g, init, n, permMap, codes);
    }
  }

  // ---------------------------------------------------------------------------
  // A run keeps every constraint of the store

  /** The catalogue loop keeps the store's constraints and maps every code to a stored permission. */
  lemma {:induction false} SeedPermissionsKeepsConstraints(db: Tables, nextId: nat, ds: seq<PermissionDecl>)
    requires Constraints(db) && WellFormed(TableState(db.perms, nextId))
    ensures var ps := SeedPermissions(TableState(db.perms, nextId), ds);
      && WellFormed(ps.table)
      && Constraints(db.(perms := ps.table.rows))
      && Ids(db.perms) <= Ids(ps.table.rows)
      && forall c | c in ps.permMap :: ps.permMap[c] in Ids(ps.table.rows)
    decreases |ds|
  {
    if ds != [] {
      var prev := SeedPermissions(TableState(db.perms, nextId), ds[..|ds| - 1]);
      SeedPermissionsKeepsConstraints(db, nextId, ds[..|ds| - 1]);
      PermissionStepKeepsConstraints(db.(perms := prev.table.rows), prev.table.nextId, ds[|ds| - 1]);
    }
  }

  /** Grants for one stored role on stored permissions keep the store's constraints. */
  lemma {:induction false} UpsertGrantsKeepsConstraints(db: Tables, nextId: nat, roleId: nat, targets: seq<(nat, Level)>)
    requires Constraints(db) && WellFormed(TableState(db.grants, nextId))
    requires roleId in Ids(db.roles)
    requires forall t | t in targets :: t.0 in Ids(db.perms)
    ensures var u := UpsertGrants(TableState(db.grants, nextId), roleId, targets);
      WellFormed(u) && Constraints(db.(grants := u.rows))
    decreases |targets|
  {
    if targets != [] {
      var init := targets[..|targets| - 1];
      var last := targets[|targets| - 1];
      assert forall t | t in init :: t in targets;
      UpsertGrantsKeepsConstraints(db, nextId, roleId, init);
      var u := UpsertGrants(TableState(db.grants, nextId), roleId, init);
      GrantStepKeepsConstraints(db.(grants := u.rows), u.nextId, roleId, last.0, last.1);
    }
  }

  /** The permission keys a role's policy expands to are values of the code map. */
  lemma PolicyTargetsFromMap(policy: seq<(string, Level)>, permMap: map<string, nat>, codes: seq<string>)
    requires forall c | c in codes :: c in permMap
    ensures forall t | t in PolicyTargets(policy, permMap, codes) :: t.0 in permMap.Values
  {
    if HasWildcard(policy) {
      var ts := PolicyTargets(policy, permMap, codes);
      forall t | t in ts ensures t.0 in permMap.Values {
        var k :| 0 <= k < |ts| && ts[k] == t;
        assert codes[k] in permMap;
      }
    }
  }

  /** The role loop keeps the store's constraints, whether it runs to the end or stops at a refused role. */
  lemma {:induction false} SeedRolesKeepsConstraints(db: Tables, rNext: nat, gNext: nat, ds: seq<RoleDecl>,
                                                     permMap: map<string, nat>, codes: seq<string>)
    requires Constraints(db) && WellFormed(TableState(db.roles, rNext)) && WellFormed(TableState(db.grants, gNext))
    requires forall c | c in codes :: c in permMap
    requires forall c | c in permMap :: permMap[c] in Ids(db.perms)
    ensures var rs := SeedRoles(TableState(db.roles, rNext), TableState(db.grants, gNext), ds, permMap, codes);
      && WellFormed(rs.roles) && WellFormed(rs.grants)
      && Constraints(db.(roles := rs.roles.rows, grants := rs.grants.rows))
    decreases |ds|
  {
    if ds != [] {
      var init := ds[..|ds| - 1];
      var d := ds[|ds| - 1];
      SeedRolesKeepsConstraints(db, rNext, gNext, init, permMap, codes);
      var prev := SeedRoles(TableState(db.roles, rNext), TableState(db.grants, gNext), init, permMap, codes);
      if prev.ok {
        var mid := db.(roles := prev.roles.rows, grants := prev.grants.rows);
        RoleStepKeepsConstraints(mid, prev.roles.nextId, d.name, d.slug);
        var u := UpsertRole(prev.roles, d.name, d.slug);
        if u.roleId.Some? {
          var ts := PolicyTargets(d.policy, permMap, codes);
          PolicyTargetsFromMap(d.policy, permMap, codes);
          UpsertGrantsKeepsConstraints(mid.(roles := u.table.rows), prev.grants.nextId, u.roleId.value, ts);
        }
      }
    }
  }

  /** A whole run keeps every constraint of the store. */
  lemma SeedKeepsConstraints(db: Tables, pNext: nat, rNext: nat, gNext: nat,
                             permDecls: seq<PermissionDecl>, roleDecls: seq<RoleDecl>)
    requires Constraints(db)
    requires WellFormed(TableState(db.perms, pNext)) && WellFormed(TableState(db.roles, rNext)) && WellFormed(TableState(db.grants, gNext))
    ensures var s := Seed(TableState(db.perms, pNext), TableState(db.roles, rNext), TableState(db.grants, gNext), permDecls, roleDecls);
      && WellFormed(s.perms) && WellFormed(s.roles) && WellFormed(s.grants)
      && Constraints(Tables(s.perms.rows, s.roles.rows, s.grants.rows, db.members))
  {
    var ps := SeedPermissions(TableState(db.perms, pNext), permDecls);
    SeedPermissionsKeepsConstraints(db, pNext, permDecls);
    SeedRolesKeepsConstraints(db.(perms := ps.table.rows), rNext, gNext, roleDecls, ps.permMap, ps.codes);
  }

  // ---------------------------------------------------------------------------
  // Declarations

  predicate DeclaresCode(ds: seq<PermissionDecl>, code: string) {
    exists k | 0 <= k < |ds| :: ds[k].code == code
  }

  predicate DeclaresSlug(ds: seq<RoleDecl>, slug: string) {
    exists k | 0 <= k < |ds| :: ds[k].slug == slug
  }

  predicate DistinctCodes(ds: seq<PermissionDecl>) {
    forall i, j | 0 <= i < j < |ds| :: ds[i].code != ds[j].code
  }

  predicate DistinctSlugs(ds: seq<RoleDecl>) {
    forall i, j | 0 <= i < j < |ds| :: ds[i].slug != ds[j].slug
  }

  /** A dictionary literal: no key twice. */
  predicate DistinctKeys(policy: seq<(string, Level)>) {
    forall i, j | 0 <= i < j < |policy| :: policy[i].0 != policy[j].0
  }

  predicate DistinctStrings(xs: seq<string>) {
    forall i, j | 0 <= i < j < |xs| :: xs[i] != xs[j]
  }

  predicate DistinctTargets(ts: seq<(nat, Level)>) {
    forall i, j | 0 <= i < j < |ts| :: ts[i].0 != ts[j].0
  }

  function TargetPerms(ts: seq<(nat, Level)>): set<nat> {
    set i | 0 <= i < |ts| :: ts[i].0
  }

  predicate Injective(m: map<string, nat>) {
    forall a, b | a in m && b in m && m[a] == m[b] :: a == b
  }

  // ---------------------------------------------------------------------------
  // The grants of one role

  lemma TargetPermsOfPrefix(targets: seq<(nat, Level)>)
    requires targets != []
    ensures TargetPerms(targets) == TargetPerms(targets[..|targets| - 1]) + {targets[|targets| - 1].0}
  {
    var init := targets[..|targets| - 1];
    forall p | p in TargetPerms(targets) ensures p in TargetPerms(init) + {targets[|targets| - 1].0} {
      var i :| 0 <= i < |targets| && targets[i].0 == p;
      if i < |init| { assert init[i].0 == p; }
    }
    forall p | p in TargetPerms(init) ensures p in TargetPerms(targets) {
      var i :| 0 <= i < |init| && init[i].0 == p;
      assert targets[i].0 == p;
    }
  }

  /**
   * Upserting one role's targets moves and re-keys no grant, and leaves grants
   * of other roles, or of this role on other permissions, where and as they were.
   */
  lemma {:induction false} UpsertGrantsFrame(t: TableState<GrantData>, roleId: nat, targets: seq<(nat, Level)>)
    ensures var u := UpsertGrants(t, roleId, targets);
      && |t.rows| <= |u.rows|
      && (forall i | 0 <= i < |t.rows| :: u.rows[i].id == t.rows[i].id)
      && (forall i | 0 <= i < |t.rows| && (t.rows[i].data.role != roleId || t.rows[i].data.permission !in TargetPerms(targets))
            :: u.rows[i] == t.rows[i])
      && (forall r, p | r != roleId || p !in TargetPerms(targets) :: FindGrant(u.rows, r, p) == FindGrant(t.rows, r, p))
    decreases |targets|
  {
    if targets != [] {
      var init := targets[..|targets| - 1];
      var last := targets[|targets| - 1];
      TargetPermsOfPrefix(targets);
      UpsertGrantsFrame(t, roleId, init);
      UpsertGrantExact(UpsertGrants(t, roleId, init), roleId, last.0, last.1);
    }
  }

  /** Upserting distinct targets leaves each of them alive at its level. */
  lemma {:induction false} UpsertGrantsExact(t: TableState<GrantData>, roleId: nat, targets: seq<(nat, Level)>)
    requires DistinctTargets(targets)
    ensures forall i | 0 <= i < |targets| :: GrantSeeded(UpsertGrants(t, roleId, targets).rows, roleId, targets[i].0, targets[i].1)
    decreases |targets|
  {
    if targets != [] {
      var init := targets[..|targets| - 1];
      var last := targets[|targets| - 1];
      UpsertGrantsExact(t, roleId, init);
      var prev := UpsertGrants(t, roleId, init);
      UpsertGrantExact(prev, roleId, last.0, last.1);
      var u := UpsertGrant(prev, roleId, last.0, last.1);
      forall i | 0 <= i < |targets| ensures GrantSeeded(u.rows, roleId, targets[i].0, targets[i].1) {
        if i < |init| {
          assert init[i] == targets[i];
          assert targets[i].0 != last.0;
          var k := FindGrant(prev.rows, roleId, targets[i].0).value;
          assert !IsGrantOf(prev.rows[k], roleId, last.0);
        }
      }
    }
  }

  /** Targets all already alive at their level change nothing. */
  lemma {:induction false} UpsertGrantsFixpoint(t: TableState<GrantData>, roleId: nat, targets: seq<(nat, Level)>)
    requires forall i | 0 <= i < |targets| :: GrantSeeded(t.rows, roleId, targets[i].0, targets[i].1)
    ensures UpsertGrants(t, roleId, targets) == t
    decreases |targets|
  {
    if targets != [] {
      var init := targets[..|targets| - 1];
      assert forall i | 0 <= i < |init| :: init[i] == targets[i];
      UpsertGrantsFixpoint(t, roleId, init);
      var last := targets[|targets| - 1];
      UpsertGrantFixpoint(t, roleId, last.0, last.1);
    }
  }

  // ---------------------------------------------------------------------------
  // The catalogue loop

  /** The catalogue loop keeps the permission table's own constraints. */
  lemma {:induction false} SeedPermissionsKeepsTable(t: TableState<PermissionData>, ds: seq<PermissionDecl>)
    requires PermTableOk(t)
    ensures PermTableOk(SeedPermissions(t, ds).table)
    decreases |ds|
  {
    if ds != [] {
      SeedPermissionsKeepsTable(t, ds[..|ds| - 1]);
      UpsertPermissionKeepsConstraints(SeedPermissions(t, ds[..|ds| - 1]).table, ds[|ds| - 1]);
    }
  }

  /**
   * After the catalogue loop, `perm_map` sends each code to the key of the row
   * with that code, and no row has been moved or re-keyed.
   */
  lemma {:induction false} SeedPermissionsMap(t: TableState<PermissionData>, ds: seq<PermissionDecl>)
    ensures var ps := SeedPermissions(t, ds);
      && (forall c | c in ps.permMap ::
            FindByCode(ps.table.rows, c).Some? && ps.permMap[c] == ps.table.rows[FindByCode(ps.table.rows, c).value].id)
      && |t.rows| <= |ps.table.rows|
      && (forall i | 0 <= i < |t.rows| :: ps.table.rows[i].id == t.rows[i].id)
    decreases |ds|
  {
    if ds != [] {
      SeedPermissionsMap(t, ds[..|ds| - 1]);
      UpsertPermissionExact(SeedPermissions(t, ds[..|ds| - 1]).table, ds[|ds| - 1]);
    }
  }

  /** The catalogue loop leaves the row of every code it does not declare as it was. */
  lemma {:induction false} SeedPermissionsFrame(t: TableState<PermissionData>, ds: seq<PermissionDecl>)
    ensures var ps := SeedPermissions(t, ds);
      && |t.rows| <= |ps.table.rows|
      && forall i | 0 <= i < |t.rows| && !DeclaresCode(ds, t.rows[i].data.code) :: ps.table.rows[i] == t.rows[i]
    decreases |ds|
  {
    if ds != [] {
      var init := ds[..|ds| - 1];
      var d := ds[|ds| - 1];
      SeedPermissionsFrame(t, init);
      var prev := SeedPermissions(t, init);
      UpsertPermissionExact(prev.table, d);
      assert forall k | 0 <= k < |init| :: init[k] == ds[k];
    }
  }

  /** With no code declared twice, the catalogue loop leaves every entry's row exactly as declared. */
  lemma {:induction false} SeedPermissionsSeedsAll(t: TableState<PermissionData>, ds: seq<PermissionDecl>)
    requires DistinctCodes(ds)
    ensures forall k | 0 <= k < |ds| :: PermissionSeeded(SeedPermissions(t, ds).table.rows, ds[k])
    decreases |ds|
  {
    if ds != [] {
      var init := ds[..|ds| - 1];
      var d := ds[|ds| - 1];
      assert forall k | 0 <= k < |init| :: init[k] == ds[k];
      SeedPermissionsSeedsAll(t, init);
      var prev := SeedPermissions(t, init);
      UpsertPermissionExact(prev.table, d);
      var rows := SeedPermissions(t, ds).table.rows;
      forall k | 0 <= k < |ds| ensures PermissionSeeded(rows, ds[k]) {
        if k < |init| {
          assert PermissionSeeded(prev.table.rows, init[k]);
          assert ds[k].code != d.code;
        }
      }
    }
  }

  /** `perm_map`'s keys, in insertion order, do not depend on the table the loop starts from. */
  lemma {:induction false} SeedPermissionsCodes(t1: TableState<PermissionData>, t2: TableState<PermissionData>, ds: seq<PermissionDecl>)
    ensures SeedPermissions(t1, ds).codes == SeedPermissions(t2, ds).codes
    decreases |ds|
  {
    if ds != [] {
      SeedPermissionsCodes(t1, t2, ds[..|ds| - 1]);
    }
  }

  /** `perm_map`'s keys, in insertion order, are the declared codes, each once. */
  lemma {:induction false} SeedPermissionsCodesAreDeclared(t: TableState<PermissionData>, ds: seq<PermissionDecl>)
    ensures DistinctStrings(SeedPermissions(t, ds).codes)
    ensures forall c :: c in SeedPermissions(t, ds).codes <==> DeclaresCode(ds, c)
    decreases |ds|
  {
    if ds != [] {
      var init := ds[..|ds| - 1];
      SeedPermissionsCodesAreDeclared(t, init);
      forall c ensures DeclaresCode(ds, c) <==> DeclaresCode(init, c) || c == ds[|ds| - 1].code {
        if DeclaresCode(ds, c) && c != ds[|ds| - 1].code {
          var k :| 0 <= k < |ds| && ds[k].code == c;
          assert init[k] == ds[k];
        }
        if DeclaresCode(init, c) {
          var k :| 0 <= k < |init| && init[k].code == c;
          assert ds[k] == init[k];
        }
      }
    }
  }

  /** A catalogue whose every entry is already as declared is left as it is. */
  lemma {:induction false} SeedPermissionsFixpoint(t: TableState<PermissionData>, ds: seq<PermissionDecl>)
    requires forall k | 0 <= k < |ds| :: PermissionSeeded(t.rows, ds[k])
    ensures SeedPermissions(t, ds).table == t
    decreases |ds|
  {
    if ds != [] {
      var init := ds[..|ds| - 1];
      assert forall k | 0 <= k < |init| :: init[k] == ds[k];
      SeedPermissionsFixpoint(t, init);
      UpsertPermissionFixpoint(t, ds[|ds| - 1]);
    }
  }

  /** Distinct codes get distinct permissions. */
  lemma SeededMapIsInjective(t: TableState<PermissionData>, ds: seq<PermissionDecl>)
    requires PermTableOk(t)
    ensures Injective(SeedPermissions(t, ds).permMap)
  {
    var ps := SeedPermissions(t, ds);
    SeedPermissionsMap(t, ds);
    SeedPermissionsKeepsTable(t, ds);
    forall a, b | a in ps.permMap && b in ps.permMap && ps.permMap[a] == ps.permMap[b] ensures a == b {
      var ka := FindByCode(ps.table.rows, a).value;
      var kb := FindByCode(ps.table.rows, b).value;
      assert ps.table.rows[ka].id == ps.table.rows[kb].id;
    }
  }

  // ---------------------------------------------------------------------------
  // The role loop

  /** The key of the role row with that slug. */
  function RoleKey(rows: seq<Row<RoleData>>, slug: string): nat
    requires FindBySlug(rows, slug).Some?
  {
    rows[FindBySlug(rows, slug).value].id
  }

  /** The key of the permission row with that code. */
  function PermissionKey(rows: seq<Row<PermissionData>>, code: string): nat
    requires FindByCode(rows, code).Some?
  {
    rows[FindByCode(rows, code).value].id
  }

  /** Every target of a policy is granted to the role, alive, at its level. */
  predicate PolicySeeded(grants: seq<Row<GrantData>>, roleId: nat, targets: seq<(nat, Level)>) {
    forall i | 0 <= i < |targets| :: GrantSeeded(grants, roleId, targets[i].0, targets[i].1)
  }

  /** Every declared role is as declared and holds every grant its policy names. */
  predicate RolesSeeded(roles: seq<Row<RoleData>>, grants: seq<Row<GrantData>>, ds: seq<RoleDecl>,
                        permMap: map<string, nat>, codes: seq<string>)
    requires forall c | c in codes :: c in permMap
  {
    forall k | 0 <= k < |ds| ::
      && RoleSeeded(roles, ds[k].name, ds[k].slug)
      && PolicySeeded(grants, RoleKey(roles, ds[k].slug), PolicyTargets(ds[k].policy, permMap, codes))
  }

  /** The warnings of a run over `ds` that refuses no role: each policy's unknown codes, in order. */
  function AllWarnings(ds: seq<RoleDecl>, permMap: map<string, nat>): seq<string>
    decreases |ds|
  {
    if ds == [] then [] else AllWarnings(ds[..|ds| - 1], permMap) + PolicyWarnings(ds[|ds| - 1].policy, permMap)
  }

  /** The role loop keeps the role table's own constraints. */
  lemma {:induction false} SeedRolesKeepsRoleTable(r: TableState<RoleData>, g: TableState<GrantData>, ds: seq<RoleDecl>,
                                                   permMap: map<string, nat>, codes: seq<string>)
    requires forall c | c in codes :: c in permMap
    requires RoleTableOk(r)
    ensures RoleTableOk(SeedRoles(r, g, ds, permMap, codes).roles)
    decreases |ds|
  {
    if ds != [] {
      SeedRolesKeepsRoleTable(r, g, ds[..|ds| - 1], permMap, codes);
      var prev := SeedRoles(r, g, ds[..|ds| - 1], permMap, codes);
      UpsertRoleKeepsConstraints(prev.roles, ds[|ds| - 1].name, ds[|ds| - 1].slug);
    }
  }

  /** A role step that succeeds leaves its role as declared, holding every grant of its policy. */
  lemma RoleStepSeedsItsRole(prev: RoleSeed, d: RoleDecl, permMap: map<string, nat>, codes: seq<string>)
    requires forall c | c in codes :: c in permMap
    requires DistinctTargets(PolicyTargets(d.policy, permMap, codes))
    ensures var next := RoleStep(prev, d, permMap, codes);
      next.ok ==>
        && RoleSeeded(next.roles.rows, d.name, d.slug)
        && PolicySeeded(next.grants.rows, RoleKey(next.roles.rows, d.slug), PolicyTargets(d.policy, permMap, codes))
  {
    if prev.ok {
      UpsertRoleExact(prev.roles, d.name, d.slug);
      var u := UpsertRole(prev.roles, d.name, d.slug);
      if u.roleId.Some? {
        UpsertGrantsExact(prev.grants, u.roleId.value, PolicyTargets(d.policy, permMap, codes));
      }
    }
  }

  /** A role step for another slug leaves an earlier role as declared and its grants as they were. */
  lemma RoleStepKeepsOtherRole(prev: RoleSeed, d: RoleDecl, permMap: map<string, nat>, codes: seq<string>, e: RoleDecl)
    requires forall c | c in codes :: c in permMap
    requires RoleTableOk(prev.roles) && e.slug != d.slug
    requires RoleSeeded(prev.roles.rows, e.name, e.slug)
    requires PolicySeeded(prev.grants.rows, RoleKey(prev.roles.rows, e.slug), PolicyTargets(e.policy, permMap, codes))
    ensures var next := RoleStep(prev, d, permMap, codes);
      && RoleSeeded(next.roles.rows, e.name, e.slug)
      && PolicySeeded(next.grants.rows, RoleKey(next.roles.rows, e.slug), PolicyTargets(e.policy, permMap, codes))
  {
    if prev.ok {
      UpsertRoleExact(prev.roles, d.name, d.slug);
      UpsertRoleKeepsConstraints(prev.roles, d.name, d.slug);
      var u := UpsertRole(prev.roles, d.name, d.slug);
      var ke := FindBySlug(prev.roles.rows, e.slug).value;
      assert FindBySlug(u.table.rows, e.slug) == Some(ke);
      if u.roleId.Some? {
        var kd := FindBySlug(u.table.rows, d.slug).value;
        assert u.table.rows[ke].data.slug != u.table.rows[kd].data.slug;
        var eid := RoleKey(prev.roles.rows, e.slug);
        assert eid == RoleKey(u.table.rows, e.slug) && eid != u.roleId.value;
        var ts := PolicyTargets(d.policy, permMap, codes);
        UpsertGrantsFrame(prev.grants, u.roleId.value, ts);
        var ets := PolicyTargets(e.policy, permMap, codes);
        forall i | 0 <= i < |ets| ensures GrantSeeded(UpsertGrants(prev.grants, u.roleId.value, ts).rows, eid, ets[i].0, ets[i].1) {
          assert GrantSeeded(prev.grants.rows, eid, ets[i].0, ets[i].1);
        }
      }
    }
  }

  /** One more successful role step keeps every earlier role seeded and seeds its own. */
  lemma RoleStepKeepsRolesSeeded(prev: RoleSeed, init: seq<RoleDecl>, d: RoleDecl,
                                 permMap: map<string, nat>, codes: seq<string>)
    requires forall c | c in codes :: c in permMap
    requires RoleTableOk(prev.roles)
    requires forall k | 0 <= k < |init| :: init[k].slug != d.slug
    requires DistinctTargets(PolicyTargets(d.policy, permMap, codes))
    requires prev.ok ==> RolesSeeded(prev.roles.rows, prev.grants.rows, init, permMap, codes)
    ensures var next := RoleStep(prev, d, permMap, codes);
      next.ok ==> RolesSeeded(next.roles.rows, next.grants.rows, init + [d], permMap, codes)
  {
    var next := RoleStep(prev, d, permMap, codes);
    if next.ok {
      RoleStepSeedsItsRole(prev, d, permMap, codes);
      var ds := init + [d];
      forall k | 0 <= k < |ds|
        ensures RoleSeeded(next.roles.rows, ds[k].name, ds[k].slug)
        ensures PolicySeeded(next.grants.rows, RoleKey(next.roles.rows, ds[k].slug), PolicyTargets(ds[k].policy, permMap, codes))
      {
        if k < |init| {
          assert ds[k] == init[k];
          RoleStepKeepsOtherRole(prev, d, permMap, codes, init[k]);
        } else {
          assert ds[k] == d;
        }
      }
    }
  }

  /**
   * A role loop that runs to the end, over distinct slugs whose policies name
   * each permission once, leaves every role as declared with every grant of
   * its policy.
   */
  lemma {:induction false} SeedRolesExact(r: TableState<RoleData>, g: TableState<GrantData>, ds: seq<RoleDecl>,
                                          permMap: map<string, nat>, codes: seq<string>)
    requires forall c | c in codes :: c in permMap
    requires RoleTableOk(r) && DistinctSlugs(ds)
    requires forall k | 0 <= k < |ds| :: DistinctTargets(PolicyTargets(ds[k].policy, permMap, codes))
    ensures var rs := SeedRoles(r, g, ds, permMap, codes);
      rs.ok ==> RolesSeeded(rs.roles.rows, rs.grants.rows, ds, permMap, codes)
    decreases |ds|
  {
    if ds != [] {
      var init := ds[..|ds| - 1];
      var d := ds[|ds| - 1];
      assert ds == init + [d];
      assert forall k | 0 <= k < |init| :: init[k] == ds[k];
      SeedRolesExact(r, g, init, permMap, codes);
      SeedRolesKeepsRoleTable(r, g, init, permMap, codes);
      SeedRolesSnoc(r, g, init, d, permMap, codes);
      RoleStepKeepsRolesSeeded(SeedRoles(r, g, init, permMap, codes), init, d, permMap, codes);
    }
  }


  /** Roles all already as declared, with all their grants, are left as they are. */
  lemma {:induction false} SeedRolesFixpoint(r: TableState<RoleData>, g: TableState<GrantData>, ds: seq<RoleDecl>,
                                             permMap: map<string, nat>, codes: seq<string>)
    requires forall c | c in codes :: c in permMap
    requires RolesSeeded(r.rows, g.rows, ds, permMap, codes)
    ensures SeedRoles(r, g, ds, permMap, codes) == RoleSeed(r, g, AllWarnings(ds, permMap), true)
    decreases |ds|
  {
    if ds != [] {
      var init := ds[..|ds| - 1];
      var d := ds[|ds| - 1];
      assert forall k | 0 <= k < |init| :: init[k] == ds[k];
      SeedRolesFixpoint(r, g, init, permMap, codes);
      UpsertRoleFixpoint(r, d.name, d.slug);
      UpsertGrantsFixpoint(g, RoleKey(r.rows, d.slug), PolicyTargets(d.policy, permMap, codes));
    }
  }

  /** A role loop that runs to the end writes exactly the warnings of every policy, in order. */
  lemma {:induction false} SeedRolesWarnings(r: TableState<RoleData>, g: TableState<GrantData>, ds: seq<RoleDecl>,
                                             permMap: map<string, nat>, codes: seq<string>)
    requires forall c | c in codes :: c in permMap
    ensures var rs := SeedRoles(r, g, ds, permMap, codes);
      rs.ok ==> rs.warnings == AllWarnings(ds, permMap)
    decreases |ds|
  {
    if ds != [] {
      SeedRolesWarnings(r, g, ds[..|ds| - 1], permMap, codes);
    }
  }

  /**
   * The role loop moves and re-keys no role, and leaves a role whose slug is
   * not declared as it was.
   */
  lemma {:induction false} SeedRolesKeepsOtherRoles(r: TableState<RoleData>, g: TableState<GrantData>, ds: seq<RoleDecl>,
                                                    permMap: map<string, nat>, codes: seq<string>)
    requires forall c | c in codes :: c in permMap
    ensures var rs := SeedRoles(r, g, ds, permMap, codes);
      && |r.rows| <= |rs.roles.rows|
      && (forall j | 0 <= j < |r.rows| :: rs.roles.rows[j].id == r.rows[j].id && rs.roles.rows[j].data.slug == r.rows[j].data.slug)
      && (forall j | 0 <= j < |r.rows| && !DeclaresSlug(ds, r.rows[j].data.slug) :: rs.roles.rows[j] == r.rows[j])
    decreases |ds|
  {
    if ds != [] {
      var init := ds[..|ds| - 1];
      var d := ds[|ds| - 1];
      SeedRolesKeepsOtherRoles(r, g, init, permMap, codes);
      var prev := SeedRoles(r, g, init, permMap, codes);
      UpsertRoleExact(prev.roles, d.name, d.slug);
    }
  }

  /** One role step moves and re-keys no grant. */
  lemma RoleStepKeepsGrantIds(prev: RoleSeed, d: RoleDecl, permMap: map<string, nat>, codes: seq<string>)
    requires forall c | c in codes :: c in permMap
    ensures var next := RoleStep(prev, d, permMap, codes);
      && |prev.grants.rows| <= |next.grants.rows|
      && (forall i | 0 <= i < |prev.grants.rows| :: next.grants.rows[i].id == prev.grants.rows[i].id)
  {
    if prev.ok {
      var u := UpsertRole(prev.roles, d.name, d.slug);
      if u.roleId.Some? {
        UpsertGrantsFrame(prev.grants, u.roleId.value, PolicyTargets(d.policy, permMap, codes));
      }
    }
  }

  /** One role step leaves the grants of a role row with another slug as they were. */
  lemma RoleStepKeepsOtherGrants(prev: RoleSeed, d: RoleDecl, permMap: map<string, nat>, codes: seq<string>, j: nat)
    requires forall c | c in codes :: c in permMap
    requires RoleTableOk(prev.roles) && j < |prev.roles.rows| && prev.roles.rows[j].data.slug != d.slug
    ensures var next := RoleStep(prev, d, permMap, codes);
      forall i | 0 <= i < |prev.grants.rows| && prev.grants.rows[i].data.role == prev.roles.rows[j].id
        :: i < |next.grants.rows| && next.grants.rows[i] == prev.grants.rows[i]
  {
    if prev.ok {
      UpsertRoleExact(prev.roles, d.name, d.slug);
      UpsertRoleKeepsConstraints(prev.roles, d.name, d.slug);
      var u := UpsertRole(prev.roles, d.name, d.slug);
      if u.roleId.Some? {
        var kd := FindBySlug(u.table.rows, d.slug).value;
        assert u.table.rows[j].data.slug != u.table.rows[kd].data.slug;
        assert u.table.rows[j].id == prev.roles.rows[j].id != u.roleId.value;
        UpsertGrantsFrame(prev.grants, u.roleId.value, PolicyTargets(d.policy, permMap, codes));
      }
    }
  }

  /**
   * The role loop moves and re-keys no grant, and leaves the grants of a
   * role whose slug is not declared as they were.
   */
  lemma {:induction false} SeedRolesKeepsOtherGrants(r: TableState<RoleData>, g: TableState<GrantData>, ds: seq<RoleDecl>,
                                                     permMap: map<string, nat>, codes: seq<string>)
    requires forall c | c in codes :: c in permMap
    requires RoleTableOk(r)
    ensures var rs := SeedRoles(r, g, ds, permMap, codes);
      && |g.rows| <= |rs.grants.rows|
      && (forall i | 0 <= i < |g.rows| :: rs.grants.rows[i].id == g.rows[i].id)
      && (forall i, j | 0 <= i < |g.rows| && 0 <= j < |r.rows| && g.rows[i].data.role == r.rows[j].id
                        && !DeclaresSlug(ds, r.rows[j].data.slug) :: rs.grants.rows[i] == g.rows[i])
    decreases |ds|
  {
    if ds != [] {
      var init := ds[..|ds| - 1];
      var d := ds[|ds| - 1];
      SeedRolesKeepsOtherGrants(r, g, init, permMap, codes);
      SeedRolesKeepsOtherRoles(r, g, init, permMap, codes);
      SeedRolesKeepsRoleTable(r, g, init, permMap, codes);
      var prev := SeedRoles(r, g, init, permMap, codes);
      var next := SeedRoles(r, g, ds, permMap, codes);
      RoleStepKeepsGrantIds(prev, d, permMap, codes);
      forall i, j | 0 <= i < |g.rows| && 0 <= j < |r.rows| && g.rows[i].data.role == r.rows[j].id
                    && !DeclaresSlug(ds, r.rows[j].data.slug)
        ensures next.grants.rows[i] == g.rows[i]
      {
        assert r.rows[j].data.slug != d.slug;
        RoleStepKeepsOtherGrants(prev, d, permMap, codes, j);
      }
    }
  }

  // ---------------------------------------------------------------------------
  // Additivity

  /** Nothing was removed or soft-deleted: every row keeps its place and key, and an alive row stays alive. */
  predicate NothingDeleted<T>(before: seq<Row<T>>, after: seq<Row<T>>) {
    && |before| <= |after|
    && forall i | 0 <= i < |before| :: after[i].id == before[i].id && (before[i].deletedAt.None? ==> after[i].deletedAt.None?)
  }

  lemma NothingDeletedTransitive<T>(a: seq<Row<T>>, b: seq<Row<T>>, c: seq<Row<T>>)
    requires NothingDeleted(a, b) && NothingDeleted(b, c)
    ensures NothingDeleted(a, c)
  {
  }

  lemma UpsertPermissionDeletesNothing(t: TableState<PermissionData>, d: PermissionDecl)
    ensures NothingDeleted(t.rows, UpsertPermission(t, d).table.rows)
  {
    if FindByCode(t.rows, d.code).None? {
      assert forall i | 0 <= i < |t.rows| :: UpsertPermission(t, d).table.rows[i] == t.rows[i];
    }
  }

  lemma UpsertRoleDeletesNothing(t: TableState<RoleData>, name: string, slug: string)
    ensures NothingDeleted(t.rows, UpsertRole(t, name, slug).table.rows)
  {
    if FindBySlug(t.rows, slug).None? {
      assert forall i | 0 <= i < |t.rows| :: UpsertRole(t, name, slug).table.rows[i] == t.rows[i];
    }
  }

  lemma UpsertGrantDeletesNothing(t: TableState<GrantData>, roleId: nat, permId: nat, level: Level)
    ensures NothingDeleted(t.rows, UpsertGrant(t, roleId, permId, level).rows)
  {
    if FindGrant(t.rows, roleId, permId).None? {
      assert forall i | 0 <= i < |t.rows| :: UpsertGrant(t, roleId, permId, level).rows[i] == t.rows[i];
    }
  }

  lemma {:induction false} SeedPermissionsDeletesNothing(t: TableState<PermissionData>, ds: seq<PermissionDecl>)
    ensures NothingDeleted(t.rows, SeedPermissions(t, ds).table.rows)
    decreases |ds|
  {
    if ds != [] {
      var prev := SeedPermissions(t, ds[..|ds| - 1]);
      SeedPermissionsDeletesNothing(t, ds[..|ds| - 1]);
      UpsertPermissionDeletesNothing(prev.table, ds[|ds| - 1]);
      NothingDeletedTransitive(t.rows, prev.table.rows, SeedPermissions(t, ds).table.rows);
    }
  }

  lemma {:induction false} UpsertGrantsDeletesNothing(t: TableState<GrantData>, roleId: nat, targets: seq<(nat, Level)>)
    ensures NothingDeleted(t.rows, UpsertGrants(t, roleId, targets).rows)
    decreases |targets|
  {
    if targets != [] {
      var init := targets[..|targets| - 1];
      var last := targets[|targets| - 1];
      UpsertGrantsDeletesNothing(t, roleId, init);
      UpsertGrantDeletesNothing(UpsertGrants(t, roleId, init), roleId, last.0, last.1);
      NothingDeletedTransitive(t.rows, UpsertGrants(t, roleId, init).rows, UpsertGrants(t, roleId, targets).rows);
    }
  }

  lemma {:induction false} SeedRolesDeletesNothing(r: TableState<RoleData>, g: TableState<GrantData>, ds: seq<RoleDecl>,
                                                   permMap: map<string, nat>, codes: seq<string>)
    requires forall c | c in codes :: c in permMap
    ensures var rs := SeedRoles(r, g, ds, permMap, codes);
      NothingDeleted(r.rows, rs.roles.rows) && NothingDeleted(g.rows, rs.grants.rows)
    decreases |ds|
  {
    if ds != [] {
      var d := ds[|ds| - 1];
      var prev := SeedRoles(r, g, ds[..|ds| - 1], permMap, codes);
      var next := SeedRoles(r, g, ds, permMap, codes);
      SeedRolesDeletesNothing(r, g, ds[..|ds| - 1], permMap, codes);
      if prev.ok {
        var u := UpsertRole(prev.roles, d.name, d.slug);
        UpsertRoleDeletesNothing(prev.roles, d.name, d.slug);
        if u.roleId.Some? {
          UpsertGrantsDeletesNothing(prev.grants, u.roleId.value, PolicyTargets(d.policy, permMap, codes));
        }
      }
      NothingDeletedTransitive(r.rows, prev.roles.rows, next.roles.rows);
      NothingDeletedTransitive(g.rows, prev.grants.rows, next.grants.rows);
    }
  }

  /**
   * The seeder is additive: it removes and soft-deletes nothing, and leaves
   * permissions whose code, roles whose slug and the grants of roles whose
   * slug it does not declare exactly as they were.
   */
  lemma SeedIsAdditive(p: TableState<PermissionData>, r: TableState<RoleData>, g: TableState<GrantData>,
                       permDecls: seq<PermissionDecl>, roleDecls: seq<RoleDecl>)
    requires RoleTableOk(r)
    ensures var s := Seed(p, r, g, permDecls, roleDecls);
      && NothingDeleted(p.rows, s.perms.rows)
      && NothingDeleted(r.rows, s.roles.rows)
      && NothingDeleted(g.rows, s.grants.rows)
      && (forall i | 0 <= i < |p.rows| && !DeclaresCode(permDecls, p.rows[i].data.code) :: s.perms.rows[i] == p.rows[i])
      && (forall j | 0 <= j < |r.rows| && !DeclaresSlug(roleDecls, r.rows[j].data.slug) :: s.roles.rows[j] == r.rows[j])
      && (forall i, j | 0 <= i < |g.rows| && 0 <= j < |r.rows| && g.rows[i].data.role == r.rows[j].id
                        && !DeclaresSlug(roleDecls, r.rows[j].data.slug) :: s.grants.rows[i] == g.rows[i])
  {
    var ps := SeedPermissions(p, permDecls);
    SeedPermissionsDeletesNothing(p, permDecls);
    SeedPermissionsFrame(p, permDecls);
    SeedRolesDeletesNothing(r, g, roleDecls, ps.permMap, ps.codes);
    SeedRolesKeepsOtherRoles(r, g, roleDecls, ps.permMap, ps.codes);
    SeedRolesKeepsOtherGrants(r, g, roleDecls, ps.permMap, ps.codes);
  }

  // ---------------------------------------------------------------------------
  // Policies

  /** `t` is the target of one of the policy's entries whose code the map knows. */
  predicate FromEntry(policy: seq<(string, Level)>, permMap: map<string, nat>, t: (nat, Level)) {
    exists k | 0 <= k < |policy| :: policy[k].0 in permMap && t == (permMap[policy[k].0], policy[k].1)
  }

  /** Each target of an explicit policy comes from one of its entries whose code the map knows. */
  lemma {:induction false} EntryTargetsOrigin(policy: seq<(string, Level)>, permMap: map<string, nat>)
    ensures forall t | t in EntryTargets(policy, permMap) :: FromEntry(policy, permMap, t)
    decreases |policy|
  {
    if policy != [] {
      var init := policy[..|policy| - 1];
      var last := policy[|policy| - 1];
      EntryTargetsOrigin(init, permMap);
      forall t | t in EntryTargets(policy, permMap) ensures FromEntry(policy, permMap, t) {
        if t in EntryTargets(init, permMap) {
          var k :| 0 <= k < |init| && init[k].0 in permMap && t == (permMap[init[k].0], init[k].1);
          assert policy[k] == init[k];
        } else {
          assert policy[|policy| - 1] == last;
        }
      }
    }
  }

  /**
   * An explicit policy skips exactly the entries whose code was not seeded:
   * each known entry is a target, each unknown code a warning, and nothing else.
   */
  lemma {:induction false} UnknownCodesAreSkipped(policy: seq<(string, Level)>, permMap: map<string, nat>)
    ensures forall k | 0 <= k < |policy| && policy[k].0 in permMap :: (permMap[policy[k].0], policy[k].1) in EntryTargets(policy, permMap)
    ensures forall c :: c in MissingCodes(policy, permMap) <==> c !in permMap && exists k | 0 <= k < |policy| :: policy[k].0 == c
    ensures |EntryTargets(policy, permMap)| + |MissingCodes(policy, permMap)| == |policy|
    decreases |policy|
  {
    if policy != [] {
      var init := policy[..|policy| - 1];
      var last := policy[|policy| - 1];
      UnknownCodesAreSkipped(init, permMap);
      assert forall k | 0 <= k < |init| :: init[k] == policy[k];
      forall c | c !in permMap && (exists k | 0 <= k < |policy| :: policy[k].0 == c) ensures c in MissingCodes(policy, permMap) {
        var k :| 0 <= k < |policy| && policy[k].0 == c;
        if k < |init| { assert init[k].0 == c; }
      }
    }
  }

  /** Entries with distinct codes, mapped injectively, give targets on distinct permissions. */
  lemma {:induction false} EntryTargetsDistinct(policy: seq<(string, Level)>, permMap: map<string, nat>)
    requires DistinctKeys(policy) && Injective(permMap)
    ensures DistinctTargets(EntryTargets(policy, permMap))
    decreases |policy|
  {
    if policy != [] {
      var init := policy[..|policy| - 1];
      var last := policy[|policy| - 1];
      EntryTargetsDistinct(init, permMap);
      EntryTargetsOrigin(init, permMap);
      if last.0 in permMap {
        var prev := EntryTargets(init, permMap);
        forall i | 0 <= i < |prev| ensures prev[i].0 != permMap[last.0] {
          assert FromEntry(init, permMap, prev[i]);
          var k :| 0 <= k < |init| && init[k].0 in permMap && prev[i] == (permMap[init[k].0], init[k].1);
          assert init[k] == policy[k];
        }
      }
    }
  }

  /** A policy, wildcard or explicit, never names one permission twice. */
  lemma PolicyTargetsDistinct(policy: seq<(string, Level)>, permMap: map<string, nat>, codes: seq<string>)
    requires forall c | c in codes :: c in permMap
    requires Injective(permMap) && DistinctStrings(codes) && DistinctKeys(policy)
    ensures DistinctTargets(PolicyTargets(policy, permMap, codes))
  {
    if !HasWildcard(policy) {
      EntryTargetsDistinct(policy, permMap);
    }
  }

  // ---------------------------------------------------------------------------
  // The whole run

  /** The catalogue loop run again on its own result returns the same table, map and codes. */
  lemma SeedPermissionsIdempotent(p: TableState<PermissionData>, permDecls: seq<PermissionDecl>)
    requires DistinctCodes(permDecls)
    ensures var ps := SeedPermissions(p, permDecls);
      SeedPermissions(ps.table, permDecls) == ps
  {
    var ps := SeedPermissions(p, permDecls);
    var ps2 := SeedPermissions(ps.table, permDecls);
    SeedPermissionsSeedsAll(p, permDecls);
    SeedPermissionsFixpoint(ps.table, permDecls);
    SeedPermissionsCodes(ps.table, p, permDecls);
    SeedPermissionsMap(p, permDecls);
    SeedPermissionsMap(ps.table, permDecls);
    assert ps2.permMap == ps.permMap;
  }


  /** A policy whose every code the map knows warns about nothing. */
  lemma {:induction false} KnownCodesAreNotMissing(policy: seq<(string, Level)>, permMap: map<string, nat>)
    requires forall i | 0 <= i < |policy| :: policy[i].0 in permMap
    ensures MissingCodes(policy, permMap) == []
    decreases |policy|
  {
    if policy != [] {
      KnownCodesAreNotMissing(policy[..|policy| - 1], permMap);
    }
  }

  /** Policies whose every explicit code was seeded write no warning. */
  lemma {:induction false} KnownCodesWarnNothing(r: TableState<RoleData>, g: TableState<GrantData>, ds: seq<RoleDecl>,
                                                 permMap: map<string, nat>, codes: seq<string>)
    requires forall c | c in codes :: c in permMap
    requires forall k, i | 0 <= k < |ds| && 0 <= i < |ds[k].policy| && !HasWildcard(ds[k].policy) :: ds[k].policy[i].0 in permMap
    ensures SeedRoles(r, g, ds, permMap, codes).warnings == []
    decreases |ds|
  {
    if ds != [] {
      var init := ds[..|ds| - 1];
      var d := ds[|ds| - 1];
      assert forall k | 0 <= k < |init| :: init[k] == ds[k];
      KnownCodesWarnNothing(r, g, init, permMap, codes);
      if !HasWildcard(d.policy) {
        assert forall i | 0 <= i < |d.policy| :: d.policy[i].0 in permMap;
        KnownCodesAreNotMissing(d.policy, permMap);
      }
      assert PolicyWarnings(d.policy, permMap) == [];
    }
  }

  /** The row with that code exists, and is alive and active: the resolver can find it. */
  predicate PermissionLive(rows: seq<Row<PermissionData>>, code: string) {
    && FindByCode(rows, code).Some?
    && rows[FindByCode(rows, code).value].deletedAt.None?
    && rows[FindByCode(rows, code).value].data.isActive
  }

  /** Every declared code, even one declared twice, ends with its row alive and active. */
  lemma {:induction false} SeedPermissionsLive(t: TableState<PermissionData>, ds: seq<PermissionDecl>)
    ensures forall c | DeclaresCode(ds, c) :: PermissionLive(SeedPermissions(t, ds).table.rows, c)
    decreases |ds|
  {
    if ds != [] {
      var init := ds[..|ds| - 1];
      var d := ds[|ds| - 1];
      SeedPermissionsLive(t, init);
      UpsertPermissionExact(SeedPermissions(t, init).table, d);
      var prev := SeedPermissions(t, init).table.rows;
      var rows := SeedPermissions(t, ds).table.rows;
      forall c | DeclaresCode(ds, c) ensures PermissionLive(rows, c) {
        if c != d.code {
          var k :| 0 <= k < |ds| && ds[k].code == c;
          assert init[k] == ds[k];
          assert DeclaresCode(init, c);
          var j := FindByCode(prev, c).value;
          assert FindByCode(rows, c) == Some(j);
          assert prev[j].data.code == c;
          assert rows[j] == prev[j];
        }
      }
    }
  }

  /**
   * A complete run over well-formed declarations leaves every declared role as
   * declared, holding every grant of its policy, against a `perm_map` that sends
   * each declared code, once each, to its row.
   */
  lemma SeedRolesComplete(p: TableState<PermissionData>, r: TableState<RoleData>, g: TableState<GrantData>,
                          permDecls: seq<PermissionDecl>, roleDecls: seq<RoleDecl>)
    requires PermTableOk(p) && RoleTableOk(r) && DistinctSlugs(roleDecls)
    requires forall k | 0 <= k < |roleDecls| :: DistinctKeys(roleDecls[k].policy)
    requires Seed(p, r, g, permDecls, roleDecls).ok
    ensures var ps := SeedPermissions(p, permDecls);
      var s := Seed(p, r, g, permDecls, roleDecls);
      && (forall c | c in ps.permMap :: FindByCode(s.perms.rows, c).Some? && ps.permMap[c] == PermissionKey(s.perms.rows, c))
      && (forall c :: c in ps.codes <==> DeclaresCode(permDecls, c))
      && (forall c | DeclaresCode(permDecls, c) :: PermissionLive(s.perms.rows, c))
      && RolesSeeded(s.roles.rows, s.grants.rows, roleDecls, ps.permMap, ps.codes)
  {
    var ps := SeedPermissions(p, permDecls);
    SeedPermissionsMap(p, permDecls);
    SeededMapIsInjective(p, permDecls);
    SeedPermissionsCodesAreDeclared(p, permDecls);
    SeedPermissionsLive(p, permDecls);
    forall k | 0 <= k < |roleDecls| ensures DistinctTargets(PolicyTargets(roleDecls[k].policy, ps.permMap, ps.codes)) {
      PolicyTargetsDistinct(roleDecls[k].policy, ps.permMap, ps.codes);
    }
    SeedRolesExact(r, g, roleDecls, ps.permMap, ps.codes);
  }

  /** After a complete run, a wildcard role holds every declared code at the wildcard's level. */
  lemma SeedGrantsWildcardPolicies(p: TableState<PermissionData>, r: TableState<RoleData>, g: TableState<GrantData>,
                                   permDecls: seq<PermissionDecl>, roleDecls: seq<RoleDecl>)
    requires PermTableOk(p) && RoleTableOk(r) && DistinctSlugs(roleDecls)
    requires forall k | 0 <= k < |roleDecls| :: DistinctKeys(roleDecls[k].policy)
    requires Seed(p, r, g, permDecls, roleDecls).ok
    ensures var s := Seed(p, r, g, permDecls, roleDecls);
      forall k, m | 0 <= k < |roleDecls| && 0 <= m < |permDecls| && HasWildcard(roleDecls[k].policy) ::
        && RoleSeeded(s.roles.rows, roleDecls[k].name, roleDecls[k].slug)
        && PermissionLive(s.perms.rows, permDecls[m].code)
        && GrantSeeded(s.grants.rows, RoleKey(s.roles.rows, roleDecls[k].slug),
                       PermissionKey(s.perms.rows, permDecls[m].code), WildcardLevel(roleDecls[k].policy))
  {
    var ps := SeedPermissions(p, permDecls);
    var s := Seed(p, r, g, permDecls, roleDecls);
    SeedRolesComplete(p, r, g, permDecls, roleDecls);
    forall k, m | 0 <= k < |roleDecls| && 0 <= m < |permDecls| && HasWildcard(roleDecls[k].policy)
      ensures PermissionLive(s.perms.rows, permDecls[m].code)
      ensures GrantSeeded(s.grants.rows, RoleKey(s.roles.rows, roleDecls[k].slug),
                          PermissionKey(s.perms.rows, permDecls[m].code), WildcardLevel(roleDecls[k].policy))
    {
      var c := permDecls[m].code;
      assert DeclaresCode(permDecls, c);
      var j :| 0 <= j < |ps.codes| && ps.codes[j] == c;
      var ts := PolicyTargets(roleDecls[k].policy, ps.permMap, ps.codes);
      assert ts[j] == (ps.permMap[c], WildcardLevel(roleDecls[k].policy));
    }
  }

  /** After a complete run, an explicit role holds each entry whose code is declared, at the entry's level. */
  lemma SeedGrantsExplicitPolicies(p: TableState<PermissionData>, r: TableState<RoleData>, g: TableState<GrantData>,
                                   permDecls: seq<PermissionDecl>, roleDecls: seq<RoleDecl>)
    requires PermTableOk(p) && RoleTableOk(r) && DistinctSlugs(roleDecls)
    requires forall k | 0 <= k < |roleDecls| :: DistinctKeys(roleDecls[k].policy)
    requires Seed(p, r, g, permDecls, roleDecls).ok
    ensures var s := Seed(p, r, g, permDecls, roleDecls);
      forall k, i | 0 <= k < |roleDecls| && 0 <= i < |roleDecls[k].policy| && !HasWildcard(roleDecls[k].policy)
                    && DeclaresCode(permDecls, roleDecls[k].policy[i].0) ::
        && RoleSeeded(s.roles.rows, roleDecls[k].name, roleDecls[k].slug)
        && PermissionLive(s.perms.rows, roleDecls[k].policy[i].0)
        && GrantSeeded(s.grants.rows, RoleKey(s.roles.rows, roleDecls[k].slug),
                       PermissionKey(s.perms.rows, roleDecls[k].policy[i].0), roleDecls[k].policy[i].1)
  {
    var ps := SeedPermissions(p, permDecls);
    var s := Seed(p, r, g, permDecls, roleDecls);
    SeedRolesComplete(p, r, g, permDecls, roleDecls);
    forall k, i | 0 <= k < |roleDecls| && 0 <= i < |roleDecls[k].policy| && !HasWildcard(roleDecls[k].policy)
                  && DeclaresCode(permDecls, roleDecls[k].policy[i].0)
      ensures PermissionLive(s.perms.rows, roleDecls[k].policy[i].0)
      ensures GrantSeeded(s.grants.rows, RoleKey(s.roles.rows, roleDecls[k].slug),
                          PermissionKey(s.perms.rows, roleDecls[k].policy[i].0), roleDecls[k].policy[i].1)
    {
      var policy := roleDecls[k].policy;
      assert policy[i].0 in ps.permMap;
      UnknownCodesAreSkipped(policy, ps.permMap);
      var ts := EntryTargets(policy, ps.permMap);
      assert (ps.permMap[policy[i].0], policy[i].1) in ts;
    }
  }

  // ---------------------------------------------------------------------------
  // How many grants a wildcard role holds

  /** The grant rows of a role on the given permissions, deleted or not. */
  function GrantsOn(grants: seq<Row<GrantData>>, roleId: nat, permIds: set<nat>): set<Row<GrantData>> {
    set x | x in grants && x.data.role == roleId && x.data.permission in permIds
  }

  /** The keys of the rows that carry the declared codes. */
  function DeclaredKeys(perms: seq<Row<PermissionData>>, ds: seq<PermissionDecl>): set<nat> {
    set m | 0 <= m < |ds| && FindByCode(perms, ds[m].code).Some? :: PermissionKey(perms, ds[m].code)
  }

  /** A sequence with no element twice has as many elements as its set. */
  lemma {:induction false} DistinctSeqSize<T>(xs: seq<T>)
    requires forall i, j | 0 <= i < j < |xs| :: xs[i] != xs[j]
    ensures |set x | x in xs| == |xs|
    decreases |xs|
  {
    if xs != [] {
      var init := xs[..|xs| - 1];
      DistinctSeqSize(init);
      assert (set x | x in xs) == (set x | x in init) + {xs[|xs| - 1]};
    }
  }

  /** Distinct codes found in a table with unique keys are found at distinct keys. */
  lemma KeysOfDistinctCodesDiffer(perms: seq<Row<PermissionData>>, ds: seq<PermissionDecl>)
    requires UniqueIds(perms) && DistinctCodes(ds)
    requires forall m | 0 <= m < |ds| :: FindByCode(perms, ds[m].code).Some?
    ensures forall i, j | 0 <= i < j < |ds| :: PermissionKey(perms, ds[i].code) != PermissionKey(perms, ds[j].code)
  {
    forall i, j | 0 <= i < j < |ds| ensures PermissionKey(perms, ds[i].code) != PermissionKey(perms, ds[j].code) {
      var ki := FindByCode(perms, ds[i].code).value;
      var kj := FindByCode(perms, ds[j].code).value;
      assert perms[ki].data.code != perms[kj].data.code;
    }
  }

  /** With unique pairs, a role granted each of distinct keys holds one grant row per key. */
  lemma OneGrantPerKey(grants: seq<Row<GrantData>>, roleId: nat, keys: seq<nat>, ids: set<nat>, level: Level)
    requires UniqueGrantPairs(grants)
    requires forall i, j | 0 <= i < j < |keys| :: keys[i] != keys[j]
    requires forall v :: v in ids <==> v in keys
    requires forall m | 0 <= m < |keys| :: GrantSeeded(grants, roleId, keys[m], level)
    ensures |GrantsOn(grants, roleId, ids)| == |keys|
    ensures forall x | x in GrantsOn(grants, roleId, ids) :: x.deletedAt.None? && x.data.level == level
  {
    var held := GrantsOn(grants, roleId, ids);
    var xs := seq(|keys|, m requires 0 <= m < |keys| => grants[FindGrant(grants, roleId, keys[m]).value]);
    forall m | 0 <= m < |keys|
      ensures xs[m] in held && xs[m].data.permission == keys[m]
      ensures xs[m].deletedAt.None? && xs[m].data.level == level
    {
      assert keys[m] in keys;
    }
    DistinctSeqSize(xs);
    forall x | x in held ensures x in xs {
      var m :| 0 <= m < |keys| && x.data.permission == keys[m];
      assert xs[m] in grants && IsGrantOf(xs[m], roleId, keys[m]);
    }
    assert held == set x | x in xs;
  }

  /**
   * With unique pairs, a role granted each of distinct declared codes holds
   * exactly one grant row per code among the rows of those codes.
   */
  lemma OneGrantPerDeclaredCode(grants: seq<Row<GrantData>>, perms: seq<Row<PermissionData>>, ds: seq<PermissionDecl>,
                                roleId: nat, level: Level)
    requires UniqueGrantPairs(grants) && UniqueIds(perms) && DistinctCodes(ds)
    requires forall m | 0 <= m < |ds| :: FindByCode(perms, ds[m].code).Some?
    requires forall m | 0 <= m < |ds| :: GrantSeeded(grants, roleId, PermissionKey(perms, ds[m].code), level)
    ensures |GrantsOn(grants, roleId, DeclaredKeys(perms, ds))| == |ds|
    ensures forall x | x in GrantsOn(grants, roleId, DeclaredKeys(perms, ds)) :: x.deletedAt.None? && x.data.level == level
  {
    var keys := seq(|ds|, m requires 0 <= m < |ds| => PermissionKey(perms, ds[m].code));
    KeysOfDistinctCodesDiffer(perms, ds);
    forall v | v in DeclaredKeys(perms, ds) ensures v in keys {
      var m :| 0 <= m < |ds| && FindByCode(perms, ds[m].code).Some? && v == PermissionKey(perms, ds[m].code);
      assert keys[m] == v;
    }
    forall v | v in keys ensures v in DeclaredKeys(perms, ds) {
      var m :| 0 <= m < |keys| && keys[m] == v;
    }
    OneGrantPerKey(grants, roleId, keys, DeclaredKeys(perms, ds), level);
  }

  /** Upserting grants keeps the grant table's own constraints. */
  lemma {:induction false} UpsertGrantsKeepsGrantTable(t: TableState<GrantData>, roleId: nat, targets: seq<(nat, Level)>)
    requires GrantTableOk(t)
    ensures GrantTableOk(UpsertGrants(t, roleId, targets))
    decreases |targets|
  {
    if targets != [] {
      var init := targets[..|targets| - 1];
      UpsertGrantsKeepsGrantTable(t, roleId, init);
      var last := targets[|targets| - 1];
      UpsertGrantKeepsConstraints(UpsertGrants(t, roleId, init), roleId, last.0, last.1);
    }
  }

  /** The role loop keeps the grant table's own constraints. */
  lemma {:induction false} SeedRolesKeepsGrantTable(r: TableState<RoleData>, g: TableState<GrantData>, ds: seq<RoleDecl>,
                                                    permMap: map<string, nat>, codes: seq<string>)
    requires forall c | c in codes :: c in permMap
    requires GrantTableOk(g)
    ensures GrantTableOk(SeedRoles(r, g, ds, permMap, codes).grants)
    decreases |ds|
  {
    if ds != [] {
      SeedRolesKeepsGrantTable(r, g, ds[..|ds| - 1], permMap, codes);
      var prev := SeedRoles(r, g, ds[..|ds| - 1], permMap, codes);
      var d := ds[|ds| - 1];
      if prev.ok {
        var u := UpsertRole(prev.roles, d.name, d.slug);
        if u.roleId.Some? {
          UpsertGrantsKeepsGrantTable(prev.grants, u.roleId.value, PolicyTargets(d.policy, permMap, codes));
        }
      }
    }
  }

  /**
   * After a complete run over distinct codes, a wildcard role holds exactly one
   * grant per declared code on the rows of those codes, each alive at the
   * wildcard's level.
   */
  lemma WildcardRoleHoldsOneGrantPerCode(p: TableState<PermissionData>, r: TableState<RoleData>, g: TableState<GrantData>,
                                         permDecls: seq<PermissionDecl>, roleDecls: seq<RoleDecl>, k: nat)
    requires PermTableOk(p) && RoleTableOk(r) && GrantTableOk(g)
    requires DistinctCodes(permDecls) && DistinctSlugs(roleDecls)
    requires forall k | 0 <= k < |roleDecls| :: DistinctKeys(roleDecls[k].policy)
    requires Seed(p, r, g, permDecls, roleDecls).ok
    requires k < |roleDecls| && HasWildcard(roleDecls[k].policy)
    ensures var s := Seed(p, r, g, permDecls, roleDecls);
      && RoleSeeded(s.roles.rows, roleDecls[k].name, roleDecls[k].slug)
      && var held := GrantsOn(s.grants.rows, RoleKey(s.roles.rows, roleDecls[k].slug), DeclaredKeys(s.perms.rows, permDecls));
      && |held| == |permDecls|
      && forall x | x in held :: x.deletedAt.None? && x.data.level == WildcardLevel(roleDecls[k].policy)
  {
    var ps := SeedPermissions(p, permDecls);
    var s := Seed(p, r, g, permDecls, roleDecls);
    SeedGrantsWildcardPolicies(p, r, g, permDecls, roleDecls);
    SeedPermissionsKeepsTable(p, permDecls);
    SeedPermissionsMap(p, permDecls);
    SeedRolesKeepsGrantTable(r, g, roleDecls, ps.permMap, ps.codes);
    SeedRolesComplete(p, r, g, permDecls, roleDecls);
    assert RoleSeeded(s.roles.rows, roleDecls[k].name, roleDecls[k].slug);
    OneGrantPerDeclaredCode(s.grants.rows, s.perms.rows, permDecls, RoleKey(s.roles.rows, roleDecls[k].slug),
                            WildcardLevel(roleDecls[k].policy));
  }

  /**
   * After a complete run on empty tables, over distinct codes, a wildcard
   * role holds exactly one grant per declared code and no other grant, each
   * alive at the wildcard's level.
   */
  lemma WildcardRoleOnEmptyTables(pNext: nat, rNext: nat, gNext: nat,
                                  permDecls: seq<PermissionDecl>, roleDecls: seq<RoleDecl>, k: nat)
    requires DistinctCodes(permDecls) && DistinctSlugs(roleDecls)
    requires forall k | 0 <= k < |roleDecls| :: DistinctKeys(roleDecls[k].policy)
    requires Seed(TableState([], pNext), TableState([], rNext), TableState([], gNext), permDecls, roleDecls).ok
    requires k < |roleDecls| && HasWildcard(roleDecls[k].policy)
    ensures var s := Seed(TableState([], pNext), TableState([], rNext), TableState([], gNext), permDecls, roleDecls);
      && RoleSeeded(s.roles.rows, roleDecls[k].name, roleDecls[k].slug)
      && var roleGrants := set x | x in s.grants.rows && x.data.role == RoleKey(s.roles.rows, roleDecls[k].slug);
      && |roleGrants| == |permDecls|
      && forall x | x in roleGrants :: x.deletedAt.None? && x.data.level == WildcardLevel(roleDecls[k].policy)
  {
    var p, r, g := TableState([], pNext), TableState([], rNext), TableState([], gNext);
    var s := Seed(p, r, g, permDecls, roleDecls);
    SeedFromEmptyTables(pNext, rNext, gNext, permDecls, roleDecls);
    SeedFromEmptyTablesRefersToPermissions(pNext, rNext, gNext, permDecls, roleDecls);
    WildcardRoleHoldsOneGrantPerCode(p, r, g, permDecls, roleDecls, k);
    GrantsLieOnDeclaredRows(s.grants.rows, s.perms.rows, permDecls, RoleKey(s.roles.rows, roleDecls[k].slug));
  }

  /**
   * A run on an empty permission table leaves only rows of declared codes,
   * and finds each declared code.
   */
  lemma SeedFromEmptyTables(pNext: nat, rNext: nat, gNext: nat, permDecls: seq<PermissionDecl>, roleDecls: seq<RoleDecl>)
    ensures var s := Seed(TableState([], pNext), TableState([], rNext), TableState([], gNext), permDecls, roleDecls);
      && UniqueCodes(s.perms.rows)
      && (forall x | x in s.perms.rows :: DeclaresCode(permDecls, x.data.code))
      && (forall m | 0 <= m < |permDecls| :: FindByCode(s.perms.rows, permDecls[m].code).Some?)
  {
    var p := TableState([], pNext);
    var s := Seed(p, TableState([], rNext), TableState([], gNext), permDecls, roleDecls);
    var ps := SeedPermissions(p, permDecls);
    assert s.perms == ps.table;
    assert forall x | x in s.perms.rows :: DeclaresCode(permDecls, x.data.code) by {
      SeedPermissionsFromEmpty(pNext, permDecls);
    }
    assert forall m | 0 <= m < |permDecls| :: FindByCode(s.perms.rows, permDecls[m].code).Some? by {
      SeedPermissionsLive(p, permDecls);
      assert forall m | 0 <= m < |permDecls| :: DeclaresCode(permDecls, permDecls[m].code);
    }
    assert UniqueCodes(s.perms.rows) by {
      SeedPermissionsKeepsTable(p, permDecls);
    }
  }

  /** A run on empty tables leaves only grants that refer to stored permissions. */
  lemma SeedFromEmptyTablesRefersToPermissions(pNext: nat, rNext: nat, gNext: nat,
                                               permDecls: seq<PermissionDecl>, roleDecls: seq<RoleDecl>)
    ensures var s := Seed(TableState([], pNext), TableState([], rNext), TableState([], gNext), permDecls, roleDecls);
      forall x | x in s.grants.rows :: x.data.permission in Ids(s.perms.rows)
  {
    var db := Tables([], [], [], []);
    SeedKeepsConstraints(db, pNext, rNext, gNext, permDecls, roleDecls);
    var s := Seed(TableState([], pNext), TableState([], rNext), TableState([], gNext), permDecls, roleDecls);
    assert ReferencesResolve(Tables(s.perms.rows, s.roles.rows, s.grants.rows, db.members));
  }

  /**
   * When every permission row carries a declared code and every grant refers
   * to a permission row, the grants of a role are its grants on declared rows.
   */
  lemma GrantsLieOnDeclaredRows(grants: seq<Row<GrantData>>, perms: seq<Row<PermissionData>>, ds: seq<PermissionDecl>,
                                roleId: nat)
    requires UniqueCodes(perms)
    requires forall x | x in perms :: DeclaresCode(ds, x.data.code)
    requires forall m | 0 <= m < |ds| :: FindByCode(perms, ds[m].code).Some?
    requires forall x | x in grants :: x.data.permission in Ids(perms)
    ensures (set x | x in grants && x.data.role == roleId) == GrantsOn(grants, roleId, DeclaredKeys(perms, ds))
  {
    forall x | x in grants && x.data.role == roleId ensures x.data.permission in DeclaredKeys(perms, ds) {
      var i :| 0 <= i < |perms| && perms[i].id == x.data.permission;
      assert perms[i] in perms;
      var m :| 0 <= m < |ds| && ds[m].code == perms[i].data.code;
      var j := FindByCode(perms, ds[m].code).value;
      assert perms[j] in perms;
      assert PermissionKey(perms, ds[m].code) in DeclaredKeys(perms, ds);
    }
  }

  /** The catalogue step writes only the row of its own code. */
  lemma UpsertPermissionWritesItsCode(t: TableState<PermissionData>, d: PermissionDecl)
    ensures var u := UpsertPermission(t, d);
      forall i | 0 <= i < |u.table.rows| :: u.table.rows[i] in t.rows || u.table.rows[i].data.code == d.code
  {
    var u := UpsertPermission(t, d);
    match FindByCode(t.rows, d.code)
    case Some(k) =>
      assert forall i | 0 <= i < |t.rows| && i != k :: u.table.rows[i] == t.rows[i];
    case None =>
      assert forall i | 0 <= i < |t.rows| :: u.table.rows[i] == t.rows[i];
  }

  /** From an empty permission table, every row the catalogue loop leaves carries a declared code. */
  lemma {:induction false} SeedPermissionsFromEmpty(nextId: nat, ds: seq<PermissionDecl>)
    ensures forall x | x in SeedPermissions(TableState([], nextId), ds).table.rows :: DeclaresCode(ds, x.data.code)
    decreases |ds|
  {
    if ds != [] {
      var init := ds[..|ds| - 1];
      var d := ds[|ds| - 1];
      SeedPermissionsFromEmpty(nextId, init);
      var t := SeedPermissions(TableState([], nextId), init).table;
      var u := UpsertPermission(t, d);
      UpsertPermissionWritesItsCode(t, d);
      forall x | x in u.table.rows ensures DeclaresCode(ds, x.data.code) {
        var i :| 0 <= i < |u.table.rows| && u.table.rows[i] == x;
        if x in t.rows {
          var m :| 0 <= m < |init| && init[m].code == x.data.code;
          assert ds[m] == init[m];
        } else {
          assert ds[|ds| - 1].code == x.data.code;
        }
      }
    }
  }

  // ---------------------------------------------------------------------------
  // When a run completes

  /** No name twice among the declared roles. */
  predicate DistinctNames(ds: seq<RoleDecl>) {
    forall i, j | 0 <= i < j < |ds| :: ds[i].name != ds[j].name
  }

  /** No role row carries a declared role's name under a slug other than the declared one. */
  predicate NoNameClash(rows: seq<Row<RoleData>>, ds: seq<RoleDecl>) {
    forall j, k | 0 <= j < |rows| && 0 <= k < |ds| && rows[j].data.name == ds[k].name :: rows[j].data.slug == ds[k].slug
  }

  /**
   * A role step for one of `all`, whose names are distinct, on a table where no
   * name of `all` sits under a foreign slug, is not refused and leaves no such
   * row behind.
   */
  lemma RoleStepKeepsNoNameClash(prev: RoleSeed, d: RoleDecl, permMap: map<string, nat>, codes: seq<string>,
                                 all: seq<RoleDecl>, a: nat)
    requires forall c | c in codes :: c in permMap
    requires RoleTableOk(prev.roles) && DistinctNames(all) && a < |all| && all[a] == d
    requires NoNameClash(prev.roles.rows, all)
    ensures var next := RoleStep(prev, d, permMap, codes);
      next.ok == prev.ok && NoNameClash(next.roles.rows, all)
  {
    if prev.ok {
      var t := prev.roles;
      var u := UpsertRole(t, d.name, d.slug);
      assert forall k | 0 <= k < |all| && all[k].name == d.name :: k == a;
      match FindBySlug(t.rows, d.slug)
      case None =>
        forall j | 0 <= j < |t.rows| ensures t.rows[j].data.name != d.name {
          assert t.rows[j].data.slug != all[a].slug;
        }
        assert u.table.rows == t.rows + [Row(t.nextId, None, DeclaredRole(d.name, d.slug))];
      case Some(k) =>
        UniqueRoleKeysByPosition(t.rows);
        forall j | 0 <= j < |t.rows| && j != k ensures t.rows[j].data.name != d.name {
          assert t.rows[j].data.slug != t.rows[k].data.slug;
        }
        assert !NameTakenExcept(t.rows, d.name, k);
        assert u.table.rows[k].data.slug == d.slug;
        assert forall j | 0 <= j < |t.rows| && j != k :: u.table.rows[j] == t.rows[j];
    }
  }

  /** The role loop over some of `all` completes, and keeps every name of `all` under its own slug. */
  lemma {:induction false} SeedRolesCompletesAmong(r: TableState<RoleData>, g: TableState<GrantData>, ds: seq<RoleDecl>,
                                                   all: seq<RoleDecl>, permMap: map<string, nat>, codes: seq<string>)
    requires forall c | c in codes :: c in permMap
    requires RoleTableOk(r) && DistinctNames(all) && NoNameClash(r.rows, all)
    requires forall k | 0 <= k < |ds| :: ds[k] in all
    ensures var rs := SeedRoles(r, g, ds, permMap, codes);
      rs.ok && NoNameClash(rs.roles.rows, all)
    decreases |ds|
  {
    if ds != [] {
      var init := ds[..|ds| - 1];
      var d := ds[|ds| - 1];
      assert forall k | 0 <= k < |init| :: init[k] == ds[k];
      SeedRolesCompletesAmong(r, g, init, all, permMap, codes);
      SeedRolesKeepsRoleTable(r, g, init, permMap, codes);
      assert d in all;
      var a :| 0 <= a < |all| && all[a] == d;
      RoleStepKeepsNoNameClash(SeedRoles(r, g, init, permMap, codes), d, permMap, codes, all, a);
    }
  }

  /**
   * A run over roles with distinct names completes whenever no existing role
   * row has a declared name under another slug; on an empty role table, say.
   */
  lemma SeedCompletes(p: TableState<PermissionData>, r: TableState<RoleData>, g: TableState<GrantData>,
                      permDecls: seq<PermissionDecl>, roleDecls: seq<RoleDecl>)
    requires RoleTableOk(r) && DistinctNames(roleDecls) && NoNameClash(r.rows, roleDecls)
    ensures Seed(p, r, g, permDecls, roleDecls).ok
  {
    var ps := SeedPermissions(p, permDecls);
    SeedRolesCompletesAmong(r, g, roleDecls, roleDecls, ps.permMap, ps.codes);
  }

  /**
   * Running the seeder again on what a complete run left changes nothing and
   * writes the same warnings.
   */
  lemma SeedIsIdempotent(p: TableState<PermissionData>, r: TableState<RoleData>, g: TableState<GrantData>,
                         permDecls: seq<PermissionDecl>, roleDecls: seq<RoleDecl>)
    requires PermTableOk(p) && RoleTableOk(r)
    requires DistinctCodes(permDecls) && DistinctSlugs(roleDecls)
    requires forall k | 0 <= k < |roleDecls| :: DistinctKeys(roleDecls[k].policy)
    requires Seed(p, r, g, permDecls, roleDecls).ok
    ensures var s := Seed(p, r, g, permDecls, roleDecls);
      Seed(s.perms, s.roles, s.grants, permDecls, roleDecls) == s
  {
    var ps := SeedPermissions(p, permDecls);
    SeedPermissionsIdempotent(p, permDecls);
    SeedRolesComplete(p, r, g, permDecls, roleDecls);
    var rs := SeedRoles(r, g, roleDecls, ps.permMap, ps.codes);
    SeedRolesFixpoint(rs.roles, rs.grants, roleDecls, ps.permMap, ps.codes);
    SeedRolesWarnings(r, g, roleDecls, ps.permMap, ps.codes);
  }
}
