/**
 * One step of the seeder at a time: each upsert keeps the table's unique
 * constraints, leaves its own row exactly as declared, leaves the rows of every
 * other key where and as they were, and changes nothing when its row is already
 * as declared.
 */
module SeedSteps {
  import opened Wrappers
  import opened PermissionLevels
  import opened SoftDeleteModel
  import opened DashboardModels
  import opened SeedSpec

  // ---------------------------------------------------------------------------
  // Unique keys, by position

  predicate UniqueKey<T, K(==)>(rows: seq<Row<T>>, key: T -> K) {
    forall i, j | 0 <= i < |rows| && 0 <= j < |rows| && key(rows[i].data) == key(rows[j].data) :: i == j
  }

  function CodeOf(p: PermissionData): string { p.code }
  function NameOf(r: RoleData): string { r.name }
  function SlugOf(r: RoleData): string { r.slug }
  function PairOf(g: GrantData): (nat, nat) { (g.role, g.permission) }

  lemma UniqueCodesByPosition(rows: seq<Row<PermissionData>>)
    requires UniqueIds(rows)
    ensures UniqueCodes(rows) <==> UniqueKey(rows, CodeOf)
  {
    if UniqueCodes(rows) {
      forall i, j | 0 <= i < |rows| && 0 <= j < |rows| && CodeOf(rows[i].data) == CodeOf(rows[j].data) ensures i == j {
        assert rows[i] in rows && rows[j] in rows;
      }
    }
  }

  lemma UniqueRoleKeysByPosition(rows: seq<Row<RoleData>>)
    requires UniqueIds(rows)
    ensures UniqueRoleNames(rows) <==> UniqueKey(rows, NameOf)
    ensures UniqueRoleSlugs(rows) <==> UniqueKey(rows, SlugOf)
  {
    if UniqueRoleNames(rows) {
      forall i, j | 0 <= i < |rows| && 0 <= j < |rows| && NameOf(rows[i].data) == NameOf(rows[j].data) ensures i == j {
        assert rows[i] in rows && rows[j] in rows;
      }
    }
    if UniqueRoleSlugs(rows) {
      forall i, j | 0 <= i < |rows| && 0 <= j < |rows| && SlugOf(rows[i].data) == SlugOf(rows[j].data) ensures i == j {
        assert rows[i] in rows && rows[j] in rows;
      }
    }
  }

  lemma UniqueGrantPairsByPosition(rows: seq<Row<GrantData>>)
    requires UniqueIds(rows)
    ensures UniqueGrantPairs(rows) <==> UniqueKey(rows, PairOf)
  {
    if UniqueGrantPairs(rows) {
      forall i, j | 0 <= i < |rows| && 0 <= j < |rows| && PairOf(rows[i].data) == PairOf(rows[j].data) ensures i == j {
        assert rows[i] in rows && rows[j] in rows;
      }
    }
  }

  /** Rewriting one row in place, keeping its key and taking no other row's key value. */
  lemma UpdateKeepsUniqueKey<T, K>(rows: seq<Row<T>>, k: nat, x: Row<T>, key: T -> K)
    requires k < |rows| && UniqueKey(rows, key)
    requires forall j | 0 <= j < |rows| && j != k :: key(rows[j].data) != key(x.data)
    ensures UniqueKey(rows[k := x], key)
  {
  }

  lemma UpdateKeepsIds<T>(rows: seq<Row<T>>, k: nat, x: Row<T>)
    requires k < |rows| && UniqueIds(rows) && x.id == rows[k].id
    ensures UniqueIds(rows[k := x]) && Ids(rows[k := x]) == Ids(rows)
  {
    var r := rows[k := x];
    forall v | v in Ids(r) ensures v in Ids(rows) {
      var i :| 0 <= i < |r| && r[i].id == v;
      assert rows[i].id == v;
    }
    forall v | v in Ids(rows) ensures v in Ids(r) {
      var i :| 0 <= i < |rows| && rows[i].id == v;
      assert r[i].id == v;
    }
  }

  lemma AppendKeepsUniqueKey<T, K>(rows: seq<Row<T>>, x: Row<T>, key: T -> K)
    requires UniqueKey(rows, key)
    requires forall j | 0 <= j < |rows| :: key(rows[j].data) != key(x.data)
    ensures UniqueKey(rows + [x], key)
  {
  }

  lemma AppendKeepsIds<T>(t: TableState<T>, x: Row<T>)
    requires WellFormed(t) && x.id == t.nextId
    ensures WellFormed(TableState(t.rows + [x], t.nextId + 1))
    ensures Ids(t.rows + [x]) == Ids(t.rows) + {x.id}
  {
    var r := t.rows + [x];
    forall v | v in Ids(r) ensures v in Ids(t.rows) + {x.id} {
      var i :| 0 <= i < |r| && r[i].id == v;
      if i < |t.rows| { assert t.rows[i].id == v; }
    }
    forall v | v in Ids(t.rows) + {x.id} ensures v in Ids(r) {
      if v == x.id {
        assert r[|t.rows|].id == v;
      } else {
        var i :| 0 <= i < |t.rows| && t.rows[i].id == v;
        assert r[i].id == v;
      }
    }
  }

  /** With unique keys, looking a row's key up finds that row. */
  lemma IndexOfUniqueId<T>(rows: seq<Row<T>>, k: nat)
    requires UniqueIds(rows) && k < |rows|
    ensures IndexOfId(rows, rows[k].id) == Some(k)
  {
    assert rows[k].id in Ids(rows);
  }

  /** One more entry of an explicit policy: a target when its code is known, else a warning. */
  lemma EntryStep(policy: seq<(string, Level)>, permMap: map<string, nat>, i: nat)
    requires i < |policy|
    ensures EntryTargets(policy[..i + 1], permMap)
         == EntryTargets(policy[..i], permMap) + (if policy[i].0 in permMap then [(permMap[policy[i].0], policy[i].1)] else [])
    ensures MissingCodes(policy[..i + 1], permMap)
         == MissingCodes(policy[..i], permMap) + (if policy[i].0 in permMap then [] else [policy[i].0])
  {
    assert policy[..i + 1][..i] == policy[..i];
  }

  /** Upserting a list of targets and then one more is upserting the longer list. */
  lemma UpsertGrantsSnoc(t: TableState<GrantData>, roleId: nat, targets: seq<(nat, Level)>, x: (nat, Level))
    ensures UpsertGrants(t, roleId, targets + [x]) == UpsertGrant(UpsertGrants(t, roleId, targets), roleId, x.0, x.1)
  {
    assert (targets + [x])[..|targets|] == targets;
  }

  // ---------------------------------------------------------------------------
  // The constraints of each table the seeder writes

  predicate PermTableOk(t: TableState<PermissionData>) {
    WellFormed(t) && UniqueCodes(t.rows)
  }

  predicate RoleTableOk(t: TableState<RoleData>) {
    WellFormed(t) && UniqueRoleNames(t.rows) && UniqueRoleSlugs(t.rows)
  }

  predicate GrantTableOk(t: TableState<GrantData>) {
    WellFormed(t) && UniqueGrantPairs(t.rows)
  }

  /** The catalogue step keeps codes unique and only ever adds keys, among them the one it returns. */
  lemma UpsertPermissionKeepsConstraints(t: TableState<PermissionData>, d: PermissionDecl)
    requires PermTableOk(t)
    ensures var u := UpsertPermission(t, d);
      && PermTableOk(u.table)
      && Ids(u.table.rows) == Ids(t.rows) + {u.id}
      && u.table.nextId >= t.nextId
  {
    var u := UpsertPermission(t, d);
    var x := Row(u.id, None, DeclaredPermission(d));
    UniqueCodesByPosition(t.rows);
    match FindByCode(t.rows, d.code)
    case Some(k) =>
      UpdateKeepsIds(t.rows, k, x);
      UpdateKeepsUniqueKey(t.rows, k, x, CodeOf);
      UniqueCodesByPosition(u.table.rows);
    case None =>
      AppendKeepsIds(t, x);
      AppendKeepsUniqueKey(t.rows, x, CodeOf);
      UniqueCodesByPosition(u.table.rows);
  }

  /**
   * The role step keeps names and slugs unique, adds at most the key it
   * returns, and on failure leaves the key set as it was.
   */
  lemma UpsertRoleKeepsConstraints(t: TableState<RoleData>, name: string, slug: string)
    requires RoleTableOk(t)
    ensures var u := UpsertRole(t, name, slug);
      && RoleTableOk(u.table)
      && u.table.nextId >= t.nextId
      && (u.roleId.Some? ==> Ids(u.table.rows) == Ids(t.rows) + {u.roleId.value})
      && (u.roleId.None? ==> Ids(u.table.rows) == Ids(t.rows))
  {
    var u := UpsertRole(t, name, slug);
    UniqueRoleKeysByPosition(t.rows);
    match FindBySlug(t.rows, slug)
    case None =>
      if !NameTakenExcept(t.rows, name, |t.rows|) {
        var x := Row(t.nextId, None, DeclaredRole(name, slug));
        AppendKeepsIds(t, x);
        AppendKeepsUniqueKey(t.rows, x, NameOf);
        AppendKeepsUniqueKey(t.rows, x, SlugOf);
        UniqueRoleKeysByPosition(u.table.rows);
      }
    case Some(k) =>
      var current := t.rows[k];
      var x := if current.data == DeclaredRole(name, slug) || (current.data.name != name && NameTakenExcept(t.rows, name, k))
               then Restored(current) else Row(current.id, None, DeclaredRole(name, slug));
      assert u.table.rows == t.rows[k := x];
      UpdateKeepsIds(t.rows, k, x);
      if x.data.name != current.data.name {
        assert !NameTakenExcept(t.rows, name, k);
      }
      UpdateKeepsUniqueKey(t.rows, k, x, NameOf);
      UpdateKeepsUniqueKey(t.rows, k, x, SlugOf);
      UniqueRoleKeysByPosition(u.table.rows);
  }

  /** The grant step keeps (role, permission) unique; a row it adds or rewrites is for that pair. */
  lemma UpsertGrantKeepsConstraints(t: TableState<GrantData>, roleId: nat, permId: nat, level: Level)
    requires GrantTableOk(t)
    ensures var u := UpsertGrant(t, roleId, permId, level);
      && GrantTableOk(u)
      && Ids(t.rows) <= Ids(u.rows)
      && forall x | x in u.rows :: x in t.rows || IsGrantOf(x, roleId, permId)
  {
    var u := UpsertGrant(t, roleId, permId, level);
    UniqueGrantPairsByPosition(t.rows);
    match FindGrant(t.rows, roleId, permId)
    case Some(k) =>
      var x := Row(t.rows[k].id, None, GrantData(roleId, permId, level));
      UpdateKeepsIds(t.rows, k, x);
      UpdateKeepsUniqueKey(t.rows, k, x, PairOf);
      UniqueGrantPairsByPosition(u.rows);
      forall y | y in u.rows ensures y in t.rows || IsGrantOf(y, roleId, permId) {
        var i :| 0 <= i < |u.rows| && u.rows[i] == y;
        if i != k { assert t.rows[i] == y; }
      }
    case None =>
      var x := Row(t.nextId, None, GrantData(roleId, permId, level));
      AppendKeepsIds(t, x);
      AppendKeepsUniqueKey(t.rows, x, PairOf);
      UniqueGrantPairsByPosition(u.rows);
  }

  // ---------------------------------------------------------------------------
  // The same steps against the whole store

  /** A catalogue step keeps every constraint of the store; grants still find their permission. */
  lemma PermissionStepKeepsConstraints(db: Tables, nextId: nat, d: PermissionDecl)
    requires Constraints(db) && WellFormed(TableState(db.perms, nextId))
    ensures var u := UpsertPermission(TableState(db.perms, nextId), d);
      && WellFormed(u.table)
      && Constraints(db.(perms := u.table.rows))
      && Ids(u.table.rows) == Ids(db.perms) + {u.id}
  {
    UpsertPermissionKeepsConstraints(TableState(db.perms, nextId), d);
  }

  /** A role step keeps every constraint of the store; grants and memberships still find their role. */
  lemma RoleStepKeepsConstraints(db: Tables, nextId: nat, name: string, slug: string)
    requires Constraints(db) && WellFormed(TableState(db.roles, nextId))
    ensures var u := UpsertRole(TableState(db.roles, nextId), name, slug);
      && WellFormed(u.table)
      && Constraints(db.(roles := u.table.rows))
      && (u.roleId.Some? ==> u.roleId.value in Ids(u.table.rows))
  {
    UpsertRoleKeepsConstraints(TableState(db.roles, nextId), name, slug);
  }

  /** A grant step between a stored role and a stored permission keeps every constraint of the store. */
  lemma GrantStepKeepsConstraints(db: Tables, nextId: nat, roleId: nat, permId: nat, level: Level)
    requires Constraints(db) && WellFormed(TableState(db.grants, nextId))
    requires roleId in Ids(db.roles) && permId in Ids(db.perms)
    ensures var u := UpsertGrant(TableState(db.grants, nextId), roleId, permId, level);
      WellFormed(u) && Constraints(db.(grants := u.rows))
  {
    UpsertGrantKeepsConstraints(TableState(db.grants, nextId), roleId, permId, level);
  }

  // ---------------------------------------------------------------------------
  // Lookups see only the key column

  lemma FindByCodeSameCodes(a: seq<Row<PermissionData>>, b: seq<Row<PermissionData>>, c: string)
    requires |a| == |b| && forall i | 0 <= i < |a| :: a[i].data.code == b[i].data.code
    ensures FindByCode(a, c) == FindByCode(b, c)
  {
  }

  lemma FindByCodeAppend(a: seq<Row<PermissionData>>, x: Row<PermissionData>, c: string)
    requires x.data.code != c
    ensures FindByCode(a + [x], c) == FindByCode(a, c)
  {
    assert forall j | 0 <= j < |a| :: (a + [x])[j] == a[j];
    match FindByCode(a, c)
    case Some(k) =>
    case None =>
  }

  lemma FindBySlugSameSlugs(a: seq<Row<RoleData>>, b: seq<Row<RoleData>>, s: string)
    requires |a| == |b| && forall i | 0 <= i < |a| :: a[i].data.slug == b[i].data.slug
    ensures FindBySlug(a, s) == FindBySlug(b, s)
  {
  }

  lemma FindBySlugAppend(a: seq<Row<RoleData>>, x: Row<RoleData>, s: string)
    requires x.data.slug != s
    ensures FindBySlug(a + [x], s) == FindBySlug(a, s)
  {
    assert forall j | 0 <= j < |a| :: (a + [x])[j] == a[j];
    match FindBySlug(a, s)
    case Some(k) =>
    case None =>
  }

  lemma FindGrantSamePairs(a: seq<Row<GrantData>>, b: seq<Row<GrantData>>, roleId: nat, permId: nat)
    requires |a| == |b| && forall i | 0 <= i < |a| :: PairOf(a[i].data) == PairOf(b[i].data)
    ensures FindGrant(a, roleId, permId) == FindGrant(b, roleId, permId)
  {
  }

  lemma FindGrantAppend(a: seq<Row<GrantData>>, x: Row<GrantData>, roleId: nat, permId: nat)
    requires !IsGrantOf(x, roleId, permId)
    ensures FindGrant(a + [x], roleId, permId) == FindGrant(a, roleId, permId)
  {
    assert forall j | 0 <= j < |a| :: (a + [x])[j] == a[j];
    match FindGrant(a, roleId, permId)
    case Some(k) =>
    case None =>
  }

  // ---------------------------------------------------------------------------
  // What one step leaves, and what it leaves alone

  /** The row with the entry's code is alive and carries exactly the declared fields. */
  predicate PermissionSeeded(rows: seq<Row<PermissionData>>, d: PermissionDecl) {
    && FindByCode(rows, d.code).Some?
    && var k := FindByCode(rows, d.code).value;
    && rows[k].deletedAt.None?
    && rows[k].data == DeclaredPermission(d)
  }

  /** The row with the slug is alive, a system role, active, and carries the declared name. */
  predicate RoleSeeded(rows: seq<Row<RoleData>>, name: string, slug: string) {
    && FindBySlug(rows, slug).Some?
    && var k := FindBySlug(rows, slug).value;
    && rows[k].deletedAt.None?
    && rows[k].data == DeclaredRole(name, slug)
  }

  /** The grant of that role on that permission is alive and at `level`. */
  predicate GrantSeeded(rows: seq<Row<GrantData>>, roleId: nat, permId: nat, level: Level) {
    && FindGrant(rows, roleId, permId).Some?
    && var k := FindGrant(rows, roleId, permId).value;
    && rows[k].deletedAt.None?
    && rows[k].data.level == level
  }

  /**
   * The catalogue step leaves its entry's row as declared and returns that row's
   * key; it keeps every row's position and key, rewrites no row of another code,
   * and every other code is found where it was.
   */
  lemma UpsertPermissionExact(t: TableState<PermissionData>, d: PermissionDecl)
    ensures var u := UpsertPermission(t, d);
      && PermissionSeeded(u.table.rows, d)
      && u.id == u.table.rows[FindByCode(u.table.rows, d.code).value].id
      && |t.rows| <= |u.table.rows|
      && (forall i | 0 <= i < |t.rows| :: u.table.rows[i].id == t.rows[i].id)
      && (forall i | 0 <= i < |t.rows| && t.rows[i].data.code != d.code :: u.table.rows[i] == t.rows[i])
      && (forall c | c != d.code :: FindByCode(u.table.rows, c) == FindByCode(t.rows, c))
  {
    var u := UpsertPermission(t, d);
    match FindByCode(t.rows, d.code)
    case Some(k) =>
      forall c ensures FindByCode(u.table.rows, c) == FindByCode(t.rows, c) {
        FindByCodeSameCodes(u.table.rows, t.rows, c);
      }
    case None =>
      var x := Row(t.nextId, None, DeclaredPermission(d));
      assert forall j | 0 <= j < |t.rows| :: u.table.rows[j] == t.rows[j];
      assert u.table.rows[|t.rows|] == x;
      assert FindByCode(u.table.rows, d.code) == Some(|t.rows|);
      forall c | c != d.code ensures FindByCode(u.table.rows, c) == FindByCode(t.rows, c) {
        FindByCodeAppend(t.rows, x, c);
      }
  }

  /** An entry whose row is already as declared changes nothing. */
  lemma UpsertPermissionFixpoint(t: TableState<PermissionData>, d: PermissionDecl)
    requires PermissionSeeded(t.rows, d)
    ensures UpsertPermission(t, d) == Upserted(t, t.rows[FindByCode(t.rows, d.code).value].id)
  {
  }

  /**
   * The database refuses a role step exactly when the row it would create, or
   * the name it would correct a row to, is a name another row already has.
   */
  predicate NameCollides(rows: seq<Row<RoleData>>, name: string, slug: string) {
    || (FindBySlug(rows, slug).None? && NameTakenExcept(rows, name, |rows|))
    || (&& FindBySlug(rows, slug).Some?
        && rows[FindBySlug(rows, slug).value].data.name != name
        && NameTakenExcept(rows, name, FindBySlug(rows, slug).value))
  }

  /**
   * A role step fails exactly on a name collision, and then changes no row's
   * fields; one that succeeds leaves its role as declared and returns its key.
   * Whether it succeeds or not, it keeps every row's position and key, rewrites
   * no row of another slug, and every other slug is found where it was.
   */
  lemma UpsertRoleExact(t: TableState<RoleData>, name: string, slug: string)
    ensures var u := UpsertRole(t, name, slug);
      && (u.roleId.None? <==> NameCollides(t.rows, name, slug))
      && (u.roleId.Some? ==>
            RoleSeeded(u.table.rows, name, slug) && u.roleId.value == u.table.rows[FindBySlug(u.table.rows, slug).value].id)
      && (u.roleId.None? ==>
            |u.table.rows| == |t.rows| && forall i | 0 <= i < |t.rows| :: u.table.rows[i].data == t.rows[i].data)
      && |t.rows| <= |u.table.rows|
      && (forall i | 0 <= i < |t.rows| :: u.table.rows[i].id == t.rows[i].id && u.table.rows[i].data.slug == t.rows[i].data.slug)
      && (forall i | 0 <= i < |t.rows| && t.rows[i].data.slug != slug :: u.table.rows[i] == t.rows[i])
      && (forall s | s != slug :: FindBySlug(u.table.rows, s) == FindBySlug(t.rows, s))
  {
    var u := UpsertRole(t, name, slug);
    match FindBySlug(t.rows, slug)
    case Some(k) =>
      forall s ensures FindBySlug(u.table.rows, s) == FindBySlug(t.rows, s) {
        FindBySlugSameSlugs(u.table.rows, t.rows, s);
      }
    case None =>
      if u.roleId.Some? {
        var x := Row(t.nextId, None, DeclaredRole(name, slug));
        assert forall j | 0 <= j < |t.rows| :: u.table.rows[j] == t.rows[j];
        assert u.table.rows[|t.rows|] == x;
        assert FindBySlug(u.table.rows, slug) == Some(|t.rows|);
        forall s | s != slug ensures FindBySlug(u.table.rows, s) == FindBySlug(t.rows, s) {
          FindBySlugAppend(t.rows, x, s);
        }
      }
  }

  /** A role already as declared is found, not changed. */
  lemma UpsertRoleFixpoint(t: TableState<RoleData>, name: string, slug: string)
    requires RoleSeeded(t.rows, name, slug)
    ensures UpsertRole(t, name, slug) == RoleUpsert(t, Some(t.rows[FindBySlug(t.rows, slug).value].id))
  {
    var k := FindBySlug(t.rows, slug).value;
    assert t.rows[k := Restored(t.rows[k])] == t.rows;
  }

  /**
   * `_upsert_role_perm` leaves its grant alive at the level; it keeps every
   * row's position and key, rewrites no grant of another pair, and every other
   * pair is found where it was.
   */
  lemma UpsertGrantExact(t: TableState<GrantData>, roleId: nat, permId: nat, level: Level)
    ensures var u := UpsertGrant(t, roleId, permId, level);
      && GrantSeeded(u.rows, roleId, permId, level)
      && |t.rows| <= |u.rows|
      && (forall i | 0 <= i < |t.rows| :: u.rows[i].id == t.rows[i].id)
      && (forall i | 0 <= i < |t.rows| && !IsGrantOf(t.rows[i], roleId, permId) :: u.rows[i] == t.rows[i])
      && (forall r, p | r != roleId || p != permId :: FindGrant(u.rows, r, p) == FindGrant(t.rows, r, p))
  {
    var u := UpsertGrant(t, roleId, permId, level);
    match FindGrant(t.rows, roleId, permId)
    case Some(k) =>
      forall r, p ensures FindGrant(u.rows, r, p) == FindGrant(t.rows, r, p) {
        FindGrantSamePairs(u.rows, t.rows, r, p);
      }
    case None =>
      var x := Row(t.nextId, None, GrantData(roleId, permId, level));
      assert forall j | 0 <= j < |t.rows| :: u.rows[j] == t.rows[j];
      assert u.rows[|t.rows|] == x;
      assert FindGrant(u.rows, roleId, permId) == Some(|t.rows|);
      forall r, p | r != roleId || p != permId ensures FindGrant(u.rows, r, p) == FindGrant(t.rows, r, p) {
        FindGrantAppend(t.rows, x, r, p);
      }
  }

  /** A grant already alive at the level is left as it is. */
  lemma UpsertGrantFixpoint(t: TableState<GrantData>, roleId: nat, permId: nat, level: Level)
    requires GrantSeeded(t.rows, roleId, permId, level)
    ensures UpsertGrant(t, roleId, permId, level) == t
  {
    var k := FindGrant(t.rows, roleId, permId).value;
    assert t.rows[k] == Row(t.rows[k].id, None, GrantData(roleId, permId, level));
    assert t.rows[k := t.rows[k]] == t.rows;
  }
}
