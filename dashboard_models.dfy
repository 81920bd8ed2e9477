/**
 * The four dashboard access-control records (permission, role, role grant,
 * membership), their defaults, the table constraints the database enforces,
 * and the store holding the four tables.
 */
module DashboardModels {
  import opened Wrappers
  import opened PermissionLevels
  import opened SoftDeleteModel
  import opened SoftDeleteManagers

  /** A capability of the admin dashboard, such as `content.course`. */
  datatype PermissionData = PermissionData(code: string, name: string, description: string, isActive: bool)

  /** A named bundle of grants, such as "Super Admin". */
  datatype RoleData = RoleData(name: string, slug: string, isSystemRole: bool, isActive: bool)

  /** A role's level on one permission; `role` and `permission` are primary keys. */
  datatype GrantData = GrantData(role: nat, permission: nat, level: Level)

  /** A user holding a role; `user` and `role` are primary keys. */
  datatype MembershipData = MembershipData(user: nat, role: nat, isActive: bool)

  /** A new permission; the description may be blank and a permission starts active. */
  function NewPermission(code: string, name: string, description: string := "", isActive: bool := true): PermissionData {
    PermissionData(code, name, description, isActive)
  }

  /** A new role starts active and is not a system role. */
  function NewRole(name: string, slug: string, isSystemRole: bool := false, isActive: bool := true): RoleData {
    RoleData(name, slug, isSystemRole, isActive)
  }

  /** A new grant starts at level NONE. */
  function NewGrant(role: nat, permission: nat, level: Level := NONE): GrantData {
    GrantData(role, permission, level)
  }

  /** A new membership starts active. */
  function NewMembership(user: nat, role: nat, isActive: bool := true): MembershipData {
    MembershipData(user, role, isActive)
  }

  /**
   * The field defaults the schema declares, for rows created without those
   * fields (as the admin site or other code may do). The seeder passes every
   * field explicitly, so no step of it goes through these constructors.
   */
  lemma DefaultsOfNewRows(code: string, name: string, slug: string, user: nat, role: nat, permission: nat)
    ensures NewPermission(code, name).isActive && NewPermission(code, name).description == ""
    ensures NewRole(name, slug).isActive && !NewRole(name, slug).isSystemRole
    ensures NewGrant(role, permission).level == NONE
    ensures NewMembership(user, role).isActive
  {
  }

  /** One snapshot of the four tables, every row included, deleted or not. */
  datatype Tables = Tables(
    perms: seq<Row<PermissionData>>,
    roles: seq<Row<RoleData>>,
    grants: seq<Row<GrantData>>,
    members: seq<Row<MembershipData>>)

  /** `code` is unique over all permission rows, deleted ones included. */
  predicate UniqueCodes(perms: seq<Row<PermissionData>>) {
    forall x, y | x in perms && y in perms && x.data.code == y.data.code :: x == y
  }

  predicate UniqueRoleNames(roles: seq<Row<RoleData>>) {
    forall x, y | x in roles && y in roles && x.data.name == y.data.name :: x == y
  }

  predicate UniqueRoleSlugs(roles: seq<Row<RoleData>>) {
    forall x, y | x in roles && y in roles && x.data.slug == y.data.slug :: x == y
  }

  /** At most one grant per (role, permission), deleted rows included. */
  predicate UniqueGrantPairs(grants: seq<Row<GrantData>>) {
    forall x, y | x in grants && y in grants && x.data.role == y.data.role && x.data.permission == y.data.permission :: x == y
  }

  /** At most one membership per (user, role), deleted rows included. */
  predicate UniqueMembershipPairs(members: seq<Row<MembershipData>>) {
    forall x, y | x in members && y in members && x.data.user == y.data.user && x.data.role == y.data.role :: x == y
  }

  /** Foreign keys: grants name stored roles and permissions; memberships name stored roles. */
  predicate ReferencesResolve(db: Tables) {
    && (forall g | g in db.grants :: g.data.role in Ids(db.roles) && g.data.permission in Ids(db.perms))
    && (forall m | m in db.members :: m.data.role in Ids(db.roles))
  }

  predicate Constraints(db: Tables) {
    && UniqueIds(db.perms) && UniqueIds(db.roles) && UniqueIds(db.grants) && UniqueIds(db.members)
    && UniqueCodes(db.perms)
    && UniqueRoleNames(db.roles) && UniqueRoleSlugs(db.roles)
    && UniqueGrantPairs(db.grants)
    && UniqueMembershipPairs(db.members)
    && ReferencesResolve(db)
  }

  /** The grant rows that reference permission `id`. */
  function GrantsOfPermission(id: nat): Row<GrantData> -> bool {
    (g: Row<GrantData>) => g.data.permission == id
  }

  /** The grant rows that reference role `id`. */
  function GrantsOfRole(id: nat): Row<GrantData> -> bool {
    (g: Row<GrantData>) => g.data.role == id
  }

  /** Removing a permission together with its grants keeps every constraint. */
  lemma PermissionRemovalKeepsConstraints(db: Tables, id: nat, after: Tables)
    requires Constraints(db)
    requires after == db.(perms := WithoutId(db.perms, id), grants := Remaining(db.grants, GrantsOfPermission(id)))
    ensures Constraints(after)
  {
    assert UniqueIds(after.perms) by { WithoutIdKeepsUniqueIds(db.perms, id); }
    assert UniqueIds(after.grants) by { RemainingKeepsUniqueIds(db.grants, GrantsOfPermission(id)); }
    assert forall x | x in after.perms :: x in db.perms;
    assert forall g | g in after.grants :: g in db.grants && g.data.permission != id;
  }

  /**
   * Removing a role that no membership references, together with its grants,
   * keeps every constraint.
   */
  lemma RoleRemovalKeepsConstraints(db: Tables, id: nat, after: Tables)
    requires Constraints(db) && forall m | m in db.members :: m.data.role != id
    requires after == db.(roles := WithoutId(db.roles, id), grants := Remaining(db.grants, GrantsOfRole(id)))
    ensures Constraints(after)
  {
    assert UniqueIds(after.roles) by { WithoutIdKeepsUniqueIds(db.roles, id); }
    assert UniqueIds(after.grants) by { RemainingKeepsUniqueIds(db.grants, GrantsOfRole(id)); }
    assert forall x | x in after.roles :: x in db.roles;
    assert forall g | g in after.grants :: g in db.grants && g.data.role != id;
  }

  /** The four tables of the dashboard access-control schema. */
  class RbacStore {
    const perms: Table<PermissionData>
    const roles: Table<RoleData>
    const grants: Table<GrantData>
    const members: Table<MembershipData>

    ghost predicate Valid()
      reads this, perms, roles, grants, members
    {
      && perms.Valid() && roles.Valid() && grants.Valid() && members.Valid()
      && Constraints(Snapshot())
    }

    function Snapshot(): Tables
      reads this, perms, roles, grants, members
    {
      Tables(perms.rows, roles.rows, grants.rows, members.rows)
    }

    constructor ()
      ensures Valid() && Snapshot() == Tables([], [], [], [])
      ensures fresh(perms) && fresh(roles) && fresh(grants) && fresh(members)
    {
      perms := new Table.Empty();
      roles := new Table.Empty();
      grants := new Table.Empty();
      members := new Table.Empty();
    }

    /**
     * `hard_delete()` on a permission: its grants go with it (cascade), deleted
     * grants included; `n` is the number of rows removed.
     */
    method HardDeletePermission(id: nat) returns (n: nat)
      requires Valid()
      modifies perms, grants
      ensures Valid()
      ensures perms.rows == WithoutId(old(perms.rows), id)
      ensures grants.rows == Remaining(old(grants.rows), GrantsOfPermission(id))
      ensures n == (if id in Ids(old(perms.rows)) then 1 else 0) + (|old(grants.rows)| - |grants.rows|)
      ensures perms.nextId == old(perms.nextId) && grants.nextId == old(grants.nextId)
      ensures roles.rows == old(roles.rows) && members.rows == old(members.rows)
    {
      ghost var before := Snapshot();
      var cascaded := SoftDeleteManagers.HardDelete(grants, GrantsOfPermission(id));
      var removed := perms.HardDelete(id);
      n := cascaded + removed;
      PermissionRemovalKeepsConstraints(before, id, Snapshot());
    }

    /**
     * `hard_delete()` on a role: refused (`ok` false, nothing removed) while any
     * membership references the role, deleted memberships included; otherwise
     * its grants go with it.
     */
    method HardDeleteRole(id: nat) returns (ok: bool)
      requires Valid()
      modifies roles, grants
      ensures Valid()
      ensures ok <==> forall m | m in members.rows :: m.data.role != id
      ensures ok ==> roles.rows == WithoutId(old(roles.rows), id)
      ensures ok ==> grants.rows == Remaining(old(grants.rows), GrantsOfRole(id))
      ensures !ok ==> roles.rows == old(roles.rows) && grants.rows == old(grants.rows)
      ensures roles.nextId == old(roles.nextId) && grants.nextId == old(grants.nextId)
      ensures perms.rows == old(perms.rows) && members.rows == old(members.rows)
    {
      ok := forall m | m in members.rows :: m.data.role != id;
      if ok {
        ghost var before := Snapshot();
        var cascaded := SoftDeleteManagers.HardDelete(grants, GrantsOfRole(id));
        var removed := roles.HardDelete(id);
        RoleRemovalKeepsConstraints(before, id, Snapshot());
      }
    }
  }
}
