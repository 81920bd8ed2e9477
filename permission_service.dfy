/**
 * The permission resolver: the effective level a user holds on a permission
 * code, computed from one snapshot of the four tables, and the threshold test
 * built on it.
 */
module PermissionService {
  import opened Wrappers
  import opened PermissionLevels
  import opened SoftDeleteModel
  import opened DashboardModels

  /** The requesting user, reduced to what the resolver reads. */
  datatype User = User(id: nat, isAuthenticated: bool, isSuperuser: bool)

  /** A permission row the resolver may use for `code`: alive, active and carrying that code. */
  predicate IsActivePermission(p: Row<PermissionData>, code: string) {
    p.deletedAt.None? && p.data.isActive && p.data.code == code
  }

  /** The default manager's `filter(code=code, is_active=True).first()` on permissions. */
  function FindActivePermission(perms: seq<Row<PermissionData>>, code: string): (r: Option<Row<PermissionData>>)
    ensures r.Some? ==> r.value in perms && IsActivePermission(r.value, code)
    ensures r.None? ==> forall p | p in perms :: !IsActivePermission(p, code)
  {
    if perms == [] then None
    else if IsActivePermission(perms[0], code) then Some(perms[0])
    else FindActivePermission(perms[1..], code)
  }

  /** A role row with primary key `roleId` that is active and alive. */
  predicate IsActiveRole(r: Row<RoleData>, roleId: nat) {
    r.id == roleId && r.data.isActive && r.deletedAt.None?
  }

  /** A membership of user `userId` in role `roleId` that is active and alive. */
  predicate IsActiveMembership(m: Row<MembershipData>, userId: nat, roleId: nat) {
    m.data.role == roleId && m.data.user == userId && m.data.isActive && m.deletedAt.None?
  }

  /**
   * The join filter: the grant is alive and on permission `permId`, its role is
   * active and alive, and that role has an active, alive membership for `userId`.
   */
  predicate Qualifies(db: Tables, userId: nat, permId: nat, g: Row<GrantData>) {
    && g.data.permission == permId
    && g.deletedAt.None?
    && (exists r | r in db.roles :: IsActiveRole(r, g.data.role))
    && (exists m | m in db.members :: IsActiveMembership(m, userId, g.data.role))
  }

  /**
   * The `Max("level")` aggregate over the grants that pass the join filter,
   * NONE when none does: the greatest qualifying level.
   */
  function MaxQualifying(gs: seq<Row<GrantData>>, db: Tables, userId: nat, permId: nat): (r: Level)
    ensures forall g | g in gs && Qualifies(db, userId, permId, g) :: Includes(r, g.data.level)
    ensures r == NONE || exists g | g in gs && Qualifies(db, userId, permId, g) :: g.data.level == r
  {
    if gs == [] then NONE
    else
      var here := if Qualifies(db, userId, permId, gs[0]) then gs[0].data.level else NONE;
      var rest := MaxQualifying(gs[1..], db, userId, permId);
      assert forall g | g in gs :: g == gs[0] || g in gs[1..];
      Max(here, rest)
  }

  /** `resolve_admin_level`: the three early returns, then the aggregate. */
  function ResolveAdminLevel(user: Option<User>, code: string, db: Tables): Level {
    if user.None? || !user.value.isAuthenticated then NONE
    else if user.value.isSuperuser then ADMIN
    else match FindActivePermission(db.perms, code)
      case None => NONE
      case Some(p) => MaxQualifying(db.grants, db, user.value.id, p.id)
  }

  /** `has_admin_perm`: the resolved level reaches `minLevel`. */
  function HasAdminPerm(user: Option<User>, code: string, minLevel: int, db: Tables): bool {
    Value(ResolveAdminLevel(user, code, db)) >= minLevel
  }

  predicate IsRegularUser(user: Option<User>) {
    user.Some? && user.value.isAuthenticated && !user.value.isSuperuser
  }

  // ---------------------------------------------------------------------------
  // The early returns

  /** A missing or anonymous user gets NONE, whatever the tables hold. */
  lemma UnauthenticatedResolvesNone(user: Option<User>, code: string, db: Tables, other: Tables)
    requires user.None? || !user.value.isAuthenticated
    ensures ResolveAdminLevel(user, code, db) == NONE
    ensures ResolveAdminLevel(user, code, db) == ResolveAdminLevel(user, code, other)
  {
  }

  /** A superuser gets ADMIN on every code, catalogued or not, whatever the tables hold. */
  lemma SuperuserResolvesAdmin(u: User, code: string, db: Tables)
    requires u.isAuthenticated && u.isSuperuser
    ensures ResolveAdminLevel(Some(u), code, db) == ADMIN
  {
  }

  /** An unknown, inactive or soft-deleted code resolves to NONE for everyone but superusers. */
  lemma UnknownCodeResolvesNone(user: Option<User>, code: string, db: Tables)
    requires IsRegularUser(user)
    requires forall p | p in db.perms :: !IsActivePermission(p, code)
    ensures ResolveAdminLevel(user, code, db) == NONE
  {
  }

  // ---------------------------------------------------------------------------
  // The aggregate

  /**
   * For a regular user and the code's active permission row `p`, the result is
   * the greatest level among the qualifying grants, and NONE when none qualifies.
   */
  lemma ResolveIsGreatestQualifyingLevel(user: Option<User>, code: string, db: Tables, p: Row<PermissionData>)
    requires IsRegularUser(user) && UniqueCodes(db.perms)
    requires p in db.perms && IsActivePermission(p, code)
    ensures var r := ResolveAdminLevel(user, code, db);
      && (forall g | g in db.grants && Qualifies(db, user.value.id, p.id, g) :: Includes(r, g.data.level))
      && ((forall g | g in db.grants :: !Qualifies(db, user.value.id, p.id, g)) ==> r == NONE)
      && (r != NONE ==> exists g | g in db.grants && Qualifies(db, user.value.id, p.id, g) :: g.data.level == r)
  {
    var found := FindActivePermission(db.perms, code);
    assert found == Some(p);
  }

  /** Two grant lists with the same qualifying rows aggregate to the same level. */
  lemma SameQualifyingSameLevel(gs1: seq<Row<GrantData>>, db1: Tables, gs2: seq<Row<GrantData>>, db2: Tables, userId: nat, permId: nat)
    requires forall g :: g in gs1 && Qualifies(db1, userId, permId, g) <==> g in gs2 && Qualifies(db2, userId, permId, g)
    ensures MaxQualifying(gs1, db1, userId, permId) == MaxQualifying(gs2, db2, userId, permId)
  {
    var r1 := MaxQualifying(gs1, db1, userId, permId);
    var r2 := MaxQualifying(gs2, db2, userId, permId);
    assert Includes(r2, r1) by {
      if r1 != NONE {
        var g :| g in gs1 && Qualifies(db1, userId, permId, g) && g.data.level == r1;
        assert g in gs2 && Qualifies(db2, userId, permId, g);
      }
    }
    assert Includes(r1, r2) by {
      if r2 != NONE {
        var g :| g in gs2 && Qualifies(db2, userId, permId, g) && g.data.level == r2;
        assert g in gs1 && Qualifies(db1, userId, permId, g);
      }
    }
    IncludesIsTotalOrder(r1, r2, r1);
  }

  /** The result does not depend on the order of the rows in any of the four tables. */
  lemma ResolveIgnoresRowOrder(user: Option<User>, code: string, db1: Tables, db2: Tables)
    requires UniqueCodes(db1.perms)
    requires multiset(db1.perms) == multiset(db2.perms) && multiset(db1.roles) == multiset(db2.roles)
    requires multiset(db1.grants) == multiset(db2.grants) && multiset(db1.members) == multiset(db2.members)
    ensures ResolveAdminLevel(user, code, db1) == ResolveAdminLevel(user, code, db2)
  {
    if IsRegularUser(user) {
      assert forall x :: x in db1.perms <==> x in db2.perms by {
        forall x ensures x in db1.perms <==> x in db2.perms {
          assert x in db1.perms <==> x in multiset(db1.perms);
          assert x in db2.perms <==> x in multiset(db2.perms);
        }
      }
      var f1 := FindActivePermission(db1.perms, code);
      var f2 := FindActivePermission(db2.perms, code);
      if f1.Some? {
        assert f2.Some?;
        assert f1.value == f2.value;
        forall g ensures g in db1.grants && Qualifies(db1, user.value.id, f1.value.id, g)
                     <==> g in db2.grants && Qualifies(db2, user.value.id, f1.value.id, g)
        {
          assert g in db1.grants <==> g in multiset(db1.grants);
          assert g in db2.grants <==> g in multiset(db2.grants);
          forall r ensures r in db1.roles <==> r in db2.roles {
            assert r in db1.roles <==> r in multiset(db1.roles);
            assert r in db2.roles <==> r in multiset(db2.roles);
          }
          forall m ensures m in db1.members <==> m in db2.members {
            assert m in db1.members <==> m in multiset(db1.members);
            assert m in db2.members <==> m in multiset(db2.members);
          }
        }
        SameQualifyingSameLevel(db1.grants, db1, db2.grants, db2, user.value.id, f1.value.id);
      }
    }
  }

  /** Raising one grant's level, nothing else changing, never lowers the result. */
  lemma RaisingAGrantNeverLowers(user: Option<User>, code: string, db: Tables, k: nat, l: Level)
    requires k < |db.grants| && Includes(l, db.grants[k].data.level)
    ensures var raised := db.(grants := db.grants[k := db.grants[k].(data := db.grants[k].data.(level := l))]);
      Includes(ResolveAdminLevel(user, code, raised), ResolveAdminLevel(user, code, db))
  {
    var raised := db.(grants := db.grants[k := db.grants[k].(data := db.grants[k].data.(level := l))]);
    if IsRegularUser(user) {
      var f := FindActivePermission(db.perms, code);
      if f.Some? {
        var uid, pid := user.value.id, f.value.id;
        var before := MaxQualifying(db.grants, db, uid, pid);
        var after := MaxQualifying(raised.grants, raised, uid, pid);
        if before != NONE {
          var g :| g in db.grants && Qualifies(db, uid, pid, g) && g.data.level == before;
          var j :| 0 <= j < |db.grants| && db.grants[j] == g;
          if j == k {
            assert raised.grants[k] in raised.grants && Qualifies(raised, uid, pid, raised.grants[k]);
          } else {
            assert raised.grants[j] == g;
            assert g in raised.grants && Qualifies(raised, uid, pid, g);
          }
        }
      }
    }
  }

  /** A soft-deleted grant counts for no more than a grant that is not there at all. */
  lemma DeletedGrantContributesNothing(user: Option<User>, code: string, db: Tables, k: nat, now: Timestamp)
    requires k < |db.grants|
    ensures ResolveAdminLevel(user, code, db.(grants := db.grants[k := SoftDeleted(db.grants[k], now)]))
         == ResolveAdminLevel(user, code, db.(grants := db.grants[..k] + db.grants[k + 1..]))
  {
    var deleted := db.(grants := db.grants[k := SoftDeleted(db.grants[k], now)]);
    var removed := db.(grants := db.grants[..k] + db.grants[k + 1..]);
    if IsRegularUser(user) {
      var f := FindActivePermission(db.perms, code);
      if f.Some? {
        var uid, pid := user.value.id, f.value.id;
        forall g ensures g in deleted.grants && Qualifies(deleted, uid, pid, g)
                     <==> g in removed.grants && Qualifies(removed, uid, pid, g)
        {
          if g in deleted.grants && g.deletedAt.None? {
            var j :| 0 <= j < |deleted.grants| && deleted.grants[j] == g;
            assert j != k;
            if j < k { assert removed.grants[j] == g; } else { assert removed.grants[j - 1] == g; }
          }
          if g in removed.grants {
            var j :| 0 <= j < |removed.grants| && removed.grants[j] == g;
            if j < k { assert deleted.grants[j] == g; } else { assert deleted.grants[j + 1] == g; }
          }
        }
        SameQualifyingSameLevel(deleted.grants, deleted, removed.grants, removed, uid, pid);
      }
    }
  }

  /** Deleting a grant and restoring it gives back the level resolved before. */
  lemma DeleteRestoreGrantRoundTrip(user: Option<User>, code: string, db: Tables, k: nat, now: Timestamp)
    requires k < |db.grants| && !db.grants[k].IsDeleted()
    ensures ResolveAdminLevel(user, code, db.(grants := db.grants[k := Restored(SoftDeleted(db.grants[k], now))]))
         == ResolveAdminLevel(user, code, db)
  {
    RestoreUndoesDelete(db.grants[k], now);
    assert db.grants[k := Restored(SoftDeleted(db.grants[k], now))] == db.grants;
  }

  /**
   * A role row that is inactive or soft-deleted counts for no more than a role
   * row that is not there: deactivating or soft-deleting a role removes what
   * its grants contributed.
   */
  lemma FilteredOutRoleContributesNothing(user: Option<User>, code: string, db: Tables, k: nat, x: Row<RoleData>)
    requires k < |db.roles|
    requires !x.data.isActive || x.IsDeleted()
    ensures ResolveAdminLevel(user, code, db.(roles := db.roles[k := x]))
         == ResolveAdminLevel(user, code, db.(roles := db.roles[..k] + db.roles[k + 1..]))
  {
    var replaced := db.(roles := db.roles[k := x]);
    var removed := db.(roles := db.roles[..k] + db.roles[k + 1..]);
    if IsRegularUser(user) {
      var f := FindActivePermission(db.perms, code);
      if f.Some? {
        var uid, pid := user.value.id, f.value.id;
        forall g ensures g in db.grants && Qualifies(replaced, uid, pid, g)
                     <==> g in db.grants && Qualifies(removed, uid, pid, g)
        {
          forall r | r in replaced.roles && IsActiveRole(r, g.data.role) ensures r in removed.roles {
            var j :| 0 <= j < |replaced.roles| && replaced.roles[j] == r;
            if j < k { assert removed.roles[j] == r; } else { assert removed.roles[j - 1] == r; }
          }
          forall r | r in removed.roles ensures r in replaced.roles {
            var j :| 0 <= j < |removed.roles| && removed.roles[j] == r;
            if j < k { assert replaced.roles[j] == r; } else { assert replaced.roles[j + 1] == r; }
          }
        }
        SameQualifyingSameLevel(db.grants, replaced, db.grants, removed, uid, pid);
      }
    }
  }

  /**
   * A membership row that is inactive or soft-deleted counts for no more than
   * a membership that is not there.
   */
  lemma FilteredOutMembershipContributesNothing(user: Option<User>, code: string, db: Tables, k: nat, x: Row<MembershipData>)
    requires k < |db.members|
    requires !x.data.isActive || x.IsDeleted()
    ensures ResolveAdminLevel(user, code, db.(members := db.members[k := x]))
         == ResolveAdminLevel(user, code, db.(members := db.members[..k] + db.members[k + 1..]))
  {
    var replaced := db.(members := db.members[k := x]);
    var removed := db.(members := db.members[..k] + db.members[k + 1..]);
    if IsRegularUser(user) {
      var f := FindActivePermission(db.perms, code);
      if f.Some? {
        var uid, pid := user.value.id, f.value.id;
        forall g ensures g in db.grants && Qualifies(replaced, uid, pid, g)
                     <==> g in db.grants && Qualifies(removed, uid, pid, g)
        {
          forall m | m in replaced.members && IsActiveMembership(m, uid, g.data.role) ensures m in removed.members {
            var j :| 0 <= j < |replaced.members| && replaced.members[j] == m;
            if j < k { assert removed.members[j] == m; } else { assert removed.members[j - 1] == m; }
          }
          forall m | m in removed.members ensures m in replaced.members {
            var j :| 0 <= j < |removed.members| && removed.members[j] == m;
            if j < k { assert replaced.members[j] == m; } else { assert replaced.members[j + 1] == m; }
          }
        }
        SameQualifyingSameLevel(db.grants, replaced, db.grants, removed, uid, pid);
      }
    }
  }

  /** A user with no active, alive membership resolves to NONE on every code (superusers aside). */
  lemma NoActiveMembershipResolvesNone(user: Option<User>, code: string, db: Tables)
    requires IsRegularUser(user)
    requires forall m | m in db.members :: !(m.data.user == user.value.id && m.data.isActive && !m.IsDeleted())
    ensures ResolveAdminLevel(user, code, db) == NONE
  {
    var f := FindActivePermission(db.perms, code);
    if f.Some? {
      assert forall g | g in db.grants :: !Qualifies(db, user.value.id, f.value.id, g);
    }
  }

  // ---------------------------------------------------------------------------
  // The threshold test

  /** A superuser passes every threshold up to ADMIN, on every code. */
  lemma SuperuserHasEveryLevel(u: User, code: string, minLevel: int, db: Tables)
    requires u.isAuthenticated && u.isSuperuser
    ensures HasAdminPerm(Some(u), code, minLevel, db) <==> minLevel <= Value(ADMIN)
  {
  }

  /** A missing or anonymous user passes only thresholds at or below NONE. */
  lemma UnauthenticatedHasOnlyNone(user: Option<User>, code: string, minLevel: int, db: Tables)
    requires user.None? || !user.value.isAuthenticated
    ensures HasAdminPerm(user, code, minLevel, db) <==> minLevel <= Value(NONE)
  {
  }

  /**
   * For a regular user and the code's active permission row, `has_admin_perm`
   * holds exactly when the threshold is at most NONE or some qualifying grant
   * reaches it.
   */
  lemma HasAdminPermIffQualifyingGrantReaches(user: Option<User>, code: string, minLevel: int, db: Tables, p: Row<PermissionData>)
    requires IsRegularUser(user) && UniqueCodes(db.perms)
    requires p in db.perms && IsActivePermission(p, code)
    ensures HasAdminPerm(user, code, minLevel, db) <==>
      (minLevel <= Value(NONE) ||
       exists g | g in db.grants && Qualifies(db, user.value.id, p.id, g) :: Value(g.data.level) >= minLevel)
  {
    ResolveIsGreatestQualifyingLevel(user, code, db, p);
    var r := ResolveAdminLevel(user, code, db);
    if HasAdminPerm(user, code, minLevel, db) && minLevel > Value(NONE) {
      var g :| g in db.grants && Qualifies(db, user.value.id, p.id, g) && g.data.level == r;
    }
  }
}
