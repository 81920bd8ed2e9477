# Dashboard RBAC engine: a Dafny model

This project models the role-based access control of an education platform's
admin dashboard. The engine keeps four soft-deletable tables:

- permissions (capability codes such as `content.course`);
- roles (such as "Super Admin");
- role grants, each giving one role a level on one permission;
- memberships, each linking a user to a role.

Four parts read and write those tables.

- **Soft-delete base.** Every row carries an optional deletion stamp.
  - `delete()` only stamps the row and `restore()` clears the stamp; `hard_delete()` removes the row.
  - The default manager shows alive rows only; the catch-all manager shows every row.
  - Query sets can be filtered to alive or dead rows, and can be soft- or hard-deleted in bulk.
- **Resolver.** `resolve_admin_level` first makes three early returns:
  - an anonymous user gets NONE;
  - a superuser gets ADMIN;
  - a code with no alive, active permission row gets NONE.

  Otherwise it returns the maximum level over the qualifying grants:
  - the grant is alive and on that permission;
  - the grant's role is active and alive;
  - that role has an active, alive membership for the user.

  `has_admin_perm` compares that level with a threshold.
- **Gate.** `DashboardPermission.has_permission` denies a view that declares no permission code. The required level defaults to READ; otherwise the gate delegates to `has_admin_perm`.
- **Seeder.** The `seed_dashboard_rbac` command upserts a catalogue of 14 permissions and 4 system roles with their policies.
  - Lookups go through the catch-all manager, so soft-deleted rows are restored rather than duplicated, and drifted fields are corrected.
  - The policy key `"*"` stands for every code seeded in the same run.
  - An unknown policy code is reported and skipped.

Layout, one module per file:

| file | module | what it holds |
|---|---|---|
| `wrappers.dfy` | `Wrappers` | `Option` |
| `permission_level.dfy` | `PermissionLevels` | the four levels and their order |
| `soft_delete_model.dfy` | `SoftDeleteModel` | rows, deletion stamps, and the class `Table<T>` with the instance operations |
| `soft_delete_managers.dfy` | `SoftDeleteManagers` | query-set views, managers, bulk deletes |
| `dashboard_models.dfy` | `DashboardModels` | the four records, their defaults, the table constraints, and the class `RbacStore` with the cascading and protected hard deletes |
| `permission_service.dfy` | `PermissionService` | the resolver and the threshold test |
| `dashboard_gate.dfy` | `DashboardGate` | the view permission |
| `seed_spec.dfy` | `SeedSpec` | the shipped catalogue and roles, and the seeder as functions on table values |
| `seed_steps.dfy` | `SeedSteps` | the one-step upserts: constraints kept, exact result, fixpoint |
| `seed_properties.dfy` | `SeedProperties` | the loops: constraints, exactness, additivity, warnings, idempotence |
| `seed_catalogue.dfy` | `SeedCatalogue` | the facts for the shipped catalogue, including what the resolver returns to members of the seeded roles |
| `seed_command.dfy` | `SeedCommand` | the command itself as imperative methods on the store, proved equal to the functions in `SeedSpec` |

A few modelling choices:

- The resolver and the gate read one value snapshot (`Tables`) of the four tables.
- The seeder's methods update the `Table` objects of an `RbacStore` in place.
- Timestamps are opaque naturals. The clock is a parameter `now` of the operations that stamp a row.
- The seeder's `perm_map` is a map plus the sequence of its keys in insertion order. That sequence is `all_perm_codes`, the order in which the wildcard is expanded.
- A policy dictionary is the sequence of its items. The lemmas that need its keys to be distinct say so (`DistinctKeys`); the shipped policies are proved to satisfy it.

Two behaviours of the code that the model follows:

- `dashboard_accessapp/permissions.py` uses `BasePermission`, `PermissionLevel` and `has_admin_perm` without importing them. The gate is modelled as the evident intent, delegation to `has_admin_perm`.
- A role name that collides with another role raises the database's IntegrityError.
  - This happens when the role is created, or when its name is corrected.
  - `handle` runs in no transaction, so what was written before stays, including the restore of that role. Later roles are not processed.
  - The model returns `ok = false` with that partial state (`SeedSpec.UpsertRole`, `SeedProperties.SeedRolesStopsAtFailure`).
  - A step is refused exactly on such a collision (`SeedSteps.UpsertRoleExact`). A run whose role names are distinct and held by no row under another slug always completes (`SeedProperties.SeedCompletes`); so does the shipped run on an empty database (`SeedCatalogue.ShippedSeedOnEmptyTables`).

## Model

| member | source | states |
|---|---|---|
| PermissionLevels.FromValue | dashboard_accessapp/enums.py:8-11 | maps a stored integer to the level with that value, and to None exactly when no level has it |
| PermissionLevels.ExactlyFourLevels | dashboard_accessapp/enums.py:8-11 | the only stored values are 0, 10, 20 and 30, and every level round-trips through its value |
| PermissionLevels.StrictlyIncreasing | dashboard_accessapp/enums.py:6-11 | NONE < READ < WRITE < ADMIN |
| PermissionLevels.IncludesIsTotalOrder | dashboard_accessapp/enums.py:6-11 | "includes" is reflexive, antisymmetric, transitive and total |
| PermissionLevels.NoneIsLeastAdminIsGreatest | dashboard_accessapp/enums.py:8-11 | every level includes NONE, and ADMIN includes every level |
| PermissionLevels.HigherIncludesLower | dashboard_accessapp/enums.py:6 | a level that passes an ADMIN, WRITE or READ check passes every lower check |
| PermissionLevels.Max | dashboard_accessapp/services/permissions.py:34 | the maximum of two levels includes both and is one of them |
| SoftDeleteModel.SoftDeleted | sharedapp/models.py:20-25 | after `delete()` the row is deleted with the given stamp; its key and fields are unchanged |
| SoftDeleteModel.Restored | sharedapp/models.py:33-35 | after `restore()` the row is not deleted; its key and fields are unchanged |
| SoftDeleteModel.RestoreUndoesDelete | sharedapp/models.py:20-35 | restore after delete gives back the alive row, and deleting again gives the same stamped row |
| SoftDeleteModel.WithoutId | sharedapp/models.py:27-31 | physical removal: the keys left are the old ones without `id`, and every other row stays |
| SoftDeleteModel.Table.Create | sharedapp/models.py:7-10 | a new instance gets a fresh key and no deletion stamp and is appended; the table stays well formed |
| SoftDeleteModel.Table.Save | dashboard_accessapp/management/commands/seed_dashboard_rbac.py:83-84 | saving fields replaces exactly the row with that key; with no such row it fails and changes nothing |
| SoftDeleteModel.Table.Delete | sharedapp/models.py:20-25 | only the row with that key is stamped; it fails exactly when no row has the key |
| SoftDeleteModel.Table.Restore | sharedapp/models.py:33-35 | only the row with that key has its stamp cleared; it fails exactly when no row has the key |
| SoftDeleteModel.Table.HardDelete | sharedapp/models.py:27-31 | the row with that key is removed physically, and the count removed is 1 or 0 |
| SoftDeleteManagers.Select | sharedapp/managers.py:13-17 | a filtered query set holds exactly the rows that pass the filter |
| SoftDeleteManagers.Remaining | sharedapp/managers.py:10-11 | after a bulk removal, exactly the rows not selected remain |
| SoftDeleteManagers.Alive | sharedapp/managers.py:13-14 | `alive()` holds exactly the rows without a stamp |
| SoftDeleteManagers.Dead | sharedapp/managers.py:16-17 | `dead()` holds exactly the rows with a stamp |
| SoftDeleteManagers.AliveDeadPartition | sharedapp/managers.py:13-17 | `alive()` and `dead()` are disjoint and together are the whole query set, counted with multiplicity |
| SoftDeleteManagers.RemainingAfterAliveIsDead | sharedapp/managers.py:31-32 | removing the alive rows leaves exactly the dead ones, in order |
| SoftDeleteManagers.MarkDeleted | sharedapp/managers.py:7-8 | `soft_delete()` stamps every selected row and leaves every other row as it was |
| SoftDeleteManagers.AliveAfterSoftDelete | sharedapp/managers.py:7-8 | after `soft_delete()` every selected row is dead, and the alive rows are the alive rows not selected |
| SoftDeleteManagers.Objects | sharedapp/managers.py:24-25 | the default manager shows exactly the alive rows |
| SoftDeleteManagers.ObjectsDead | sharedapp/managers.py:28-29 | `SoftDeleteManager.dead()` returns the deleted rows, none of which the default view shows |
| SoftDeleteManagers.AllObjects | sharedapp/managers.py:39-40 | the catch-all manager shows every row: the default view plus the dead rows |
| SoftDeleteManagers.AllObjectsAlive | sharedapp/managers.py:42-43 | the catch-all manager's `alive()` equals the default view |
| SoftDeleteManagers.AllObjectsDead | sharedapp/managers.py:45-46 | the catch-all manager's `dead()` equals `SoftDeleteManager.dead()` |
| SoftDeleteManagers.SoftDelete | sharedapp/managers.py:7-8 | the bulk soft delete stamps the selected rows in place, including rows already stamped, and counts them |
| SoftDeleteManagers.HardDelete | sharedapp/managers.py:10-11 | the bulk hard delete removes the selected rows and counts them |
| SoftDeleteManagers.RemainingKeepsUniqueIds | sharedapp/managers.py:10-11 | a bulk removal keeps the remaining primary keys unique |
| SoftDeleteManagers.RemainingKeepsWellFormed | sharedapp/managers.py:10-11 | a bulk removal keeps the table well formed, with the same next key |
| SoftDeleteManagers.ManagerHardDelete | sharedapp/managers.py:31-32 | `SoftDeleteManager.hard_delete()` removes exactly the alive rows and leaves the dead ones |
| DashboardModels.DefaultsOfNewRows | dashboard_accessapp/models.py:28-95 | new permissions, roles and memberships start active; roles start as non-system roles; grants start at NONE; descriptions may be blank |
| DashboardModels.PermissionRemovalKeepsConstraints | dashboard_accessapp/models.py:66-67 | removing a permission together with its grants keeps every uniqueness and reference constraint |
| DashboardModels.RoleRemovalKeepsConstraints | dashboard_accessapp/models.py:66-93 | removing a role that no membership references, together with its grants, keeps every constraint |
| DashboardModels.RbacStore.HardDeletePermission | dashboard_accessapp/models.py:66-67 | the permission is removed and its grants cascade, deleted grants included; the count is the permission row plus the grants removed; roles, memberships and next keys are untouched |
| DashboardModels.RbacStore.HardDeleteRole | dashboard_accessapp/models.py:66-93 | refused exactly when some membership, deleted or not, references the role; otherwise the role and its grants go; the store stays valid and no next key moves |
| PermissionService.FindActivePermission | dashboard_accessapp/services/permissions.py:21-23 | finds an alive, active permission row with the code, and finds none exactly when no row is one |
| PermissionService.MaxQualifying | dashboard_accessapp/services/permissions.py:26-36 | the aggregate includes every qualifying grant's level and is NONE or one of those levels |
| PermissionService.UnauthenticatedResolvesNone | dashboard_accessapp/services/permissions.py:13-14 | a missing or anonymous user gets NONE, whatever the tables hold |
| PermissionService.SuperuserResolvesAdmin | dashboard_accessapp/services/permissions.py:16-18 | an authenticated superuser gets ADMIN on every code, catalogued or not |
| PermissionService.UnknownCodeResolvesNone | dashboard_accessapp/services/permissions.py:20-23 | a regular user gets NONE on a code with no alive, active permission row |
| PermissionService.ResolveIsGreatestQualifyingLevel | dashboard_accessapp/services/permissions.py:26-36 | for a regular user the result includes every qualifying grant's level, is NONE when none qualifies, and otherwise is one of those levels |
| PermissionService.SameQualifyingSameLevel | dashboard_accessapp/services/permissions.py:26-34 | two grant lists with the same qualifying rows give the same level |
| PermissionService.ResolveIgnoresRowOrder | dashboard_accessapp/services/permissions.py:26-36 | the result does not depend on the order of the rows in any table |
| PermissionService.RaisingAGrantNeverLowers | dashboard_accessapp/services/permissions.py:34 | raising one grant's level, with nothing else changing, never lowers the result |
| PermissionService.DeletedGrantContributesNothing | dashboard_accessapp/services/permissions.py:30 | a soft-deleted grant counts exactly as much as a grant that is not there |
| PermissionService.DeleteRestoreGrantRoundTrip | dashboard_accessapp/services/permissions.py:26-36 | soft-deleting a grant and restoring it gives back the level resolved before |
| PermissionService.FilteredOutRoleContributesNothing | dashboard_accessapp/services/permissions.py:28-29 | an inactive or soft-deleted role row counts exactly as much as no row at all |
| PermissionService.FilteredOutMembershipContributesNothing | dashboard_accessapp/services/permissions.py:31-33 | an inactive or soft-deleted membership counts exactly as much as no membership at all |
| PermissionService.NoActiveMembershipResolvesNone | dashboard_accessapp/services/permissions.py:31-36 | a regular user with no active, alive membership, or only filtered-out ones, gets NONE on every code |
| PermissionService.SuperuserHasEveryLevel | dashboard_accessapp/services/permissions.py:39-43 | a superuser passes a threshold exactly when it is at most ADMIN |
| PermissionService.UnauthenticatedHasOnlyNone | dashboard_accessapp/services/permissions.py:39-43 | an anonymous user passes a threshold exactly when it is at most NONE |
| PermissionService.HasAdminPermIffQualifyingGrantReaches | dashboard_accessapp/services/permissions.py:39-43 | for a regular user, `has_admin_perm` holds exactly when the threshold is at most NONE or some qualifying grant reaches it |
| DashboardGate.UndeclaredCodeDenies | dashboard_accessapp/permissions.py:15-20 | a view with no code, or an empty code, denies every request |
| DashboardGate.DefaultLevelIsRead | dashboard_accessapp/permissions.py:16 | a view that declares no level requires READ |
| DashboardGate.DeclaredCodeDelegates | dashboard_accessapp/permissions.py:22 | with a code declared, the gate answers exactly what `has_admin_perm` answers |
| DashboardGate.SuperuserPassesEveryLevel | dashboard_accessapp/permissions.py:22 | with a code declared, a superuser passes at every level and at the default |
| DashboardGate.UnauthenticatedDeniedAboveNone | dashboard_accessapp/permissions.py:22 | an anonymous request is denied whenever the required level is above NONE |
| DashboardGate.DefaultGateNeedsAReadGrant | dashboard_accessapp/permissions.py:14-22 | at the default level, a regular user passes exactly when some qualifying grant is at least READ |
| SeedSpec.FindByCode | dashboard_accessapp/management/commands/seed_dashboard_rbac.py:65-68 | the `get_or_create` lookup by code, over every row: finds the first row with the code, or reports that none has it |
| SeedSpec.FindBySlug | dashboard_accessapp/management/commands/seed_dashboard_rbac.py:93-96 | the `get_or_create` lookup by slug, over every row: finds the first row with the slug, or reports that none has it |
| SeedSpec.FindGrant | dashboard_accessapp/management/commands/seed_dashboard_rbac.py:130-134 | the `get_or_create` lookup by (role, permission): finds the first such grant, or reports that none exists |
| SeedSpec.WildcardLevel | dashboard_accessapp/management/commands/seed_dashboard_rbac.py:115-116 | `policy["*"]` is the level of a `"*"` entry of the policy |
| SeedSpec.WildcardTargets | dashboard_accessapp/management/commands/seed_dashboard_rbac.py:115-119 | the wildcard expands to one target per seeded code, in `perm_map` key order, all at the wildcard's level |
| SeedSpec.EntryTargets | dashboard_accessapp/management/commands/seed_dashboard_rbac.py:120-125 | an explicit policy gives at most one target per entry, each on a permission that `perm_map` holds |
| SeedSpec.SeedPermissions | dashboard_accessapp/management/commands/seed_dashboard_rbac.py:64-90 | after the catalogue loop, the codes in `all_perm_codes` are exactly the keys of `perm_map` |
| SeedSteps.UpsertPermissionKeepsConstraints | dashboard_accessapp/management/commands/seed_dashboard_rbac.py:65-85 | one catalogue step keeps keys and codes unique, and adds at most the key it returns |
| SeedSteps.UpsertRoleKeepsConstraints | dashboard_accessapp/management/commands/seed_dashboard_rbac.py:93-112 | one role step keeps keys, names and slugs unique, and adds at most the role key it returns |
| SeedSteps.UpsertGrantKeepsConstraints | dashboard_accessapp/management/commands/seed_dashboard_rbac.py:129-139 | `_upsert_role_perm` keeps (role, permission) unique, keeps every key, and changes only that pair's grant |
| SeedSteps.PermissionStepKeepsConstraints | dashboard_accessapp/management/commands/seed_dashboard_rbac.py:65-85 | one catalogue step keeps every constraint of the four tables |
| SeedSteps.RoleStepKeepsConstraints | dashboard_accessapp/management/commands/seed_dashboard_rbac.py:93-112 | one role step keeps every constraint, and the returned key is a stored role |
| SeedSteps.GrantStepKeepsConstraints | dashboard_accessapp/management/commands/seed_dashboard_rbac.py:129-139 | a grant on a stored role and permission keeps every constraint |
| SeedSteps.UpsertPermissionExact | dashboard_accessapp/management/commands/seed_dashboard_rbac.py:65-85 | after a catalogue step the row with the code is alive, active and as declared, and the key returned is its key; other codes' rows are untouched |
| SeedSteps.UpsertPermissionFixpoint | dashboard_accessapp/management/commands/seed_dashboard_rbac.py:65-85 | a step on a row already as declared changes nothing |
| SeedSteps.UpsertRoleExact | dashboard_accessapp/management/commands/seed_dashboard_rbac.py:93-112 | a role step fails exactly when the row it would create, or the name it would correct a row to, takes another row's name, and then changes no row's fields; when it succeeds, its row is alive, active, a system role and carries the declared name; other slugs' rows are untouched |
| SeedSteps.UpsertRoleFixpoint | dashboard_accessapp/management/commands/seed_dashboard_rbac.py:93-112 | a step on a role already as declared changes nothing and succeeds |
| SeedSteps.UpsertGrantExact | dashboard_accessapp/management/commands/seed_dashboard_rbac.py:129-139 | after `_upsert_role_perm` exactly one grant for the pair is found; it is alive at the level, and other pairs are untouched |
| SeedSteps.UpsertGrantFixpoint | dashboard_accessapp/management/commands/seed_dashboard_rbac.py:129-139 | a grant already alive at the level is left as it is |
| SeedProperties.SeedRolesStopsAtFailure | dashboard_accessapp/management/commands/seed_dashboard_rbac.py:92-112 | once a role is refused, later roles change nothing |
| SeedProperties.SeedPermissionsKeepsConstraints | dashboard_accessapp/management/commands/seed_dashboard_rbac.py:64-85 | the catalogue loop keeps every constraint, keeps every key, and maps each code to a stored permission |
| SeedProperties.UpsertGrantsKeepsConstraints | dashboard_accessapp/management/commands/seed_dashboard_rbac.py:115-125 | applying a policy keeps every constraint |
| SeedProperties.SeedRolesKeepsConstraints | dashboard_accessapp/management/commands/seed_dashboard_rbac.py:92-125 | the role loop keeps every constraint |
| SeedProperties.SeedKeepsConstraints | dashboard_accessapp/management/commands/seed_dashboard_rbac.py:60-139 | a whole run keeps every constraint of the four tables |
| SeedProperties.UpsertGrantsFrame | dashboard_accessapp/management/commands/seed_dashboard_rbac.py:115-125 | a policy rewrites no grant of another role or another permission, and moves no row |
| SeedProperties.UpsertGrantsExact | dashboard_accessapp/management/commands/seed_dashboard_rbac.py:115-125 | after a policy with distinct permissions, every target grant is alive at its level |
| SeedProperties.UpsertGrantsFixpoint | dashboard_accessapp/management/commands/seed_dashboard_rbac.py:115-125 | a policy whose grants are all in place changes nothing |
| SeedProperties.SeedPermissionsKeepsTable | dashboard_accessapp/management/commands/seed_dashboard_rbac.py:64-85 | the catalogue loop keeps keys and codes unique |
| SeedProperties.SeedPermissionsMap | dashboard_accessapp/management/commands/seed_dashboard_rbac.py:85 | `perm_map` sends each code to the key of the row with that code |
| SeedProperties.SeedPermissionsFrame | dashboard_accessapp/management/commands/seed_dashboard_rbac.py:64-85 | the catalogue loop leaves every row of an undeclared code as it was |
| SeedProperties.SeedPermissionsSeedsAll | dashboard_accessapp/management/commands/seed_dashboard_rbac.py:64-85 | after the loop over distinct codes, every declared permission is alive, active and as declared |
| SeedProperties.SeedPermissionsCodes | dashboard_accessapp/management/commands/seed_dashboard_rbac.py:90 | `all_perm_codes` depends only on the catalogue, not on the table |
| SeedProperties.SeedPermissionsCodesAreDeclared | dashboard_accessapp/management/commands/seed_dashboard_rbac.py:85-90 | `all_perm_codes` holds each declared code exactly once and nothing else |
| SeedProperties.SeedPermissionsFixpoint | dashboard_accessapp/management/commands/seed_dashboard_rbac.py:64-85 | a catalogue already in place is left as it is |
| SeedProperties.SeededMapIsInjective | dashboard_accessapp/management/commands/seed_dashboard_rbac.py:85 | `perm_map` never sends two codes to the same permission |
| SeedProperties.SeedRolesKeepsRoleTable | dashboard_accessapp/management/commands/seed_dashboard_rbac.py:92-112 | the role loop keeps keys, names and slugs unique |
| SeedProperties.RoleStepSeedsItsRole | dashboard_accessapp/management/commands/seed_dashboard_rbac.py:92-125 | a successful role step leaves its role as declared, holding every grant of its policy |
| SeedProperties.RoleStepKeepsOtherRole | dashboard_accessapp/management/commands/seed_dashboard_rbac.py:92-125 | a step for another slug keeps an earlier role as declared, with its grants |
| SeedProperties.RoleStepKeepsRolesSeeded | dashboard_accessapp/management/commands/seed_dashboard_rbac.py:92-125 | one more successful step keeps every earlier role seeded and seeds its own |
| SeedProperties.SeedRolesExact | dashboard_accessapp/management/commands/seed_dashboard_rbac.py:92-125 | a role loop that completes leaves every declared role as declared, holding every grant of its policy |
| SeedProperties.SeedRolesFixpoint | dashboard_accessapp/management/commands/seed_dashboard_rbac.py:92-125 | roles and grants already in place are left as they are, the run completes, and it writes exactly each policy's unknown codes |
| SeedProperties.SeedRolesWarnings | dashboard_accessapp/management/commands/seed_dashboard_rbac.py:121-125 | a completed role loop writes exactly each policy's unknown codes, in order |
| SeedProperties.SeedRolesKeepsOtherRoles | dashboard_accessapp/management/commands/seed_dashboard_rbac.py:92-112 | the role loop moves and re-keys no role, and leaves a role of an undeclared slug as it was |
| SeedProperties.SeedRolesKeepsOtherGrants | dashboard_accessapp/management/commands/seed_dashboard_rbac.py:92-125 | the role loop leaves every grant of a role with an undeclared slug as it was |
| SeedProperties.UpsertPermissionDeletesNothing | dashboard_accessapp/management/commands/seed_dashboard_rbac.py:65-85 | a catalogue step removes no row and deletes no alive row |
| SeedProperties.UpsertRoleDeletesNothing | dashboard_accessapp/management/commands/seed_dashboard_rbac.py:93-112 | a role step removes no row and deletes no alive row, even when it fails |
| SeedProperties.UpsertGrantDeletesNothing | dashboard_accessapp/management/commands/seed_dashboard_rbac.py:129-139 | `_upsert_role_perm` removes no grant and deletes no alive grant |
| SeedProperties.SeedPermissionsDeletesNothing | dashboard_accessapp/management/commands/seed_dashboard_rbac.py:64-85 | the catalogue loop removes and deletes nothing |
| SeedProperties.UpsertGrantsDeletesNothing | dashboard_accessapp/management/commands/seed_dashboard_rbac.py:115-125 | applying a policy removes and deletes nothing |
| SeedProperties.SeedRolesDeletesNothing | dashboard_accessapp/management/commands/seed_dashboard_rbac.py:92-125 | the role loop removes and deletes no role and no grant |
| SeedProperties.SeedIsAdditive | dashboard_accessapp/management/commands/seed_dashboard_rbac.py:60-139 | a run deletes nothing in any table, and leaves undeclared permissions, undeclared roles and those roles' grants as they were |
| SeedProperties.EntryTargetsOrigin | dashboard_accessapp/management/commands/seed_dashboard_rbac.py:120-125 | every target of an explicit policy comes from one of its entries with a known code |
| SeedProperties.UnknownCodesAreSkipped | dashboard_accessapp/management/commands/seed_dashboard_rbac.py:121-125 | every known entry becomes a target; the warnings are exactly the policy's unknown codes; targets and warnings together account for every entry |
| SeedProperties.EntryTargetsDistinct | dashboard_accessapp/management/commands/seed_dashboard_rbac.py:120-125 | an explicit policy over distinct codes, with an injective `perm_map`, names each permission once |
| SeedProperties.PolicyTargetsDistinct | dashboard_accessapp/management/commands/seed_dashboard_rbac.py:115-125 | wildcard or explicit, a policy names each permission once |
| SeedProperties.SeedPermissionsIdempotent | dashboard_accessapp/management/commands/seed_dashboard_rbac.py:64-85 | the catalogue loop run again on its own result gives the same table, `perm_map` and codes |
| SeedProperties.KnownCodesAreNotMissing | dashboard_accessapp/management/commands/seed_dashboard_rbac.py:121-124 | a policy whose codes are all known produces no warning |
| SeedProperties.KnownCodesWarnNothing | dashboard_accessapp/management/commands/seed_dashboard_rbac.py:92-125 | a role loop whose explicit policies name only known codes writes no warning |
| SeedProperties.SeedPermissionsLive | dashboard_accessapp/management/commands/seed_dashboard_rbac.py:64-85 | after the catalogue loop every declared code has an alive, active row, even a code declared twice |
| SeedProperties.SeedRolesComplete | dashboard_accessapp/management/commands/seed_dashboard_rbac.py:60-125 | after a completed run, `perm_map` names the stored rows, the codes are exactly the declared ones and are live, and every role is seeded with its policy |
| SeedProperties.SeedGrantsWildcardPolicies | dashboard_accessapp/management/commands/seed_dashboard_rbac.py:115-119 | a wildcard role holds an alive grant at the wildcard's level on every declared permission |
| SeedProperties.SeedGrantsExplicitPolicies | dashboard_accessapp/management/commands/seed_dashboard_rbac.py:120-125 | an explicit role holds an alive grant at the entry's level for every entry of its policy whose code is declared |
| SeedProperties.KeysOfDistinctCodesDiffer | dashboard_accessapp/models.py:26 | distinct codes are found at distinct permission keys |
| SeedProperties.OneGrantPerKey | dashboard_accessapp/models.py:71-74 | with (role, permission) unique, a role granted each of n distinct permissions holds exactly n grant rows on them, each alive at the level |
| SeedProperties.OneGrantPerDeclaredCode | dashboard_accessapp/models.py:71-74 | a role granted each of distinct declared codes holds exactly one grant row per code on those codes' rows |
| SeedProperties.UpsertGrantsKeepsGrantTable | dashboard_accessapp/management/commands/seed_dashboard_rbac.py:115-125 | applying a policy keeps grant keys and (role, permission) pairs unique |
| SeedProperties.SeedRolesKeepsGrantTable | dashboard_accessapp/management/commands/seed_dashboard_rbac.py:92-125 | the role loop keeps grant keys and (role, permission) pairs unique |
| SeedProperties.WildcardRoleHoldsOneGrantPerCode | dashboard_accessapp/management/commands/seed_dashboard_rbac.py:115-119 | after a completed run over distinct codes, a wildcard role holds exactly one grant per declared code on those codes' rows, as many as there are codes, each alive at the wildcard's level |
| SeedProperties.WildcardRoleOnEmptyTables | dashboard_accessapp/management/commands/seed_dashboard_rbac.py:115-119 | after a completed run on empty tables, a wildcard role holds exactly as many grants as there are declared codes and no other grant, each alive at the wildcard's level |
| SeedProperties.GrantsLieOnDeclaredRows | dashboard_accessapp/models.py:66-67 | when every permission row has a declared code and every grant refers to a stored permission, a role's grants all lie on declared rows |
| SeedProperties.UpsertPermissionWritesItsCode | dashboard_accessapp/management/commands/seed_dashboard_rbac.py:65-85 | a catalogue step writes no row but the one with its own code |
| SeedProperties.SeedPermissionsFromEmpty | dashboard_accessapp/management/commands/seed_dashboard_rbac.py:64-85 | from an empty table, every permission row the catalogue loop leaves has a declared code |
| SeedProperties.SeedFromEmptyTables | dashboard_accessapp/management/commands/seed_dashboard_rbac.py:64-85 | a run on an empty permission table leaves only rows of declared codes, with unique codes, and finds every declared code |
| SeedProperties.SeedFromEmptyTablesRefersToPermissions | dashboard_accessapp/models.py:66-67 | after a run on empty tables every grant refers to a stored permission |
| SeedProperties.RoleStepKeepsNoNameClash | dashboard_accessapp/management/commands/seed_dashboard_rbac.py:92-112 | a role step whose name no row holds under another slug is not refused, and leaves no declared name under another slug |
| SeedProperties.SeedRolesCompletesAmong | dashboard_accessapp/management/commands/seed_dashboard_rbac.py:92-112 | a role loop over roles with distinct names, none held by a row under another slug, is never refused |
| SeedProperties.SeedCompletes | dashboard_accessapp/management/commands/seed_dashboard_rbac.py:60-112 | a run over roles with distinct names completes whenever no role row has a declared name under another slug, for instance on an empty role table |
| SeedProperties.SeedIsIdempotent | dashboard_accessapp/management/commands/seed_dashboard_rbac.py:58-139 | running the seeder again on what a completed run left changes no table and writes the same warnings |
| SeedCatalogue.ShippedCatalogueIsDistinct | dashboard_accessapp/management/commands/seed_dashboard_rbac.py:7-25 | the shipped catalogue has 14 entries and no code twice |
| SeedCatalogue.ShippedRolesAreDistinct | dashboard_accessapp/management/commands/seed_dashboard_rbac.py:27-54 | four roles with distinct names and distinct slugs and policies without repeated keys; only Super Admin has the wildcard, at ADMIN |
| SeedCatalogue.ShippedPoliciesNameCatalogueCodes | dashboard_accessapp/management/commands/seed_dashboard_rbac.py:27-54 | every code in the explicit policies is in the catalogue |
| SeedCatalogue.ShippedSeedWarnsNothing | dashboard_accessapp/management/commands/seed_dashboard_rbac.py:60-125 | the shipped run never writes a missing-code warning |
| SeedCatalogue.ShippedSeedCompletes | dashboard_accessapp/management/commands/seed_dashboard_rbac.py:27-112 | the shipped run completes whenever no role row has a system role's name under another slug, whatever the other tables hold |
| SeedCatalogue.ShippedSeedOnEmptyTables | dashboard_accessapp/management/commands/seed_dashboard_rbac.py:7-119 | on an empty database the shipped run completes, and Super Admin ends with exactly 14 grants, one per catalogue code, each alive at ADMIN |
| SeedCatalogue.ShippedSuperAdminHoldsEveryCode | dashboard_accessapp/management/commands/seed_dashboard_rbac.py:115-119 | after any completed shipped run, Super Admin holds exactly one grant per catalogue code on the catalogue's rows, 14 in all, each alive at ADMIN |
| SeedCatalogue.ShippedSeedIsIdempotent | dashboard_accessapp/management/commands/seed_dashboard_rbac.py:58-139 | the shipped run, once completed, is safe to run again: nothing changes |
| SeedCatalogue.SeededGrantReachesItsLevel | dashboard_accessapp/services/permissions.py:26-36 | an alive grant on a live permission, for a live role the user actively holds, lifts the resolved level to at least the grant's level |
| SeedCatalogue.WildcardMembersReachTheLevel | dashboard_accessapp/management/commands/seed_dashboard_rbac.py:115-119 | after a completed run, a member of a wildcard role resolves to at least the wildcard level on every declared code |
| SeedCatalogue.ExplicitMembersReachTheirLevels | dashboard_accessapp/management/commands/seed_dashboard_rbac.py:120-125 | after a completed run, a member of an explicit role passes `has_admin_perm` at each declared entry's level |
| SeedCatalogue.SuperAdminMembersResolveAdmin | dashboard_accessapp/management/commands/seed_dashboard_rbac.py:29-31 | after a completed shipped run, every Super Admin member resolves to ADMIN on all 14 codes |
| SeedCatalogue.SystemRoleMembersReachTheirLevels | dashboard_accessapp/management/commands/seed_dashboard_rbac.py:33-53 | after a completed shipped run, members of Content, Support and Finance Admin pass each of their policy entries at its level |
| SeedCatalogue.ContentPublishIsSeededAtWrite | dashboard_accessapp/management/commands/seed_dashboard_rbac.py:41 | after a completed shipped run, Content Admin's `content.publish` grant is alive at WRITE |
| SeedCommand.UpsertPermissionRow | dashboard_accessapp/management/commands/seed_dashboard_rbac.py:65-85 | the catalogue step in place leaves the table and key that `UpsertPermission` describes |
| SeedCommand.CorrectRoleFields | dashboard_accessapp/management/commands/seed_dashboard_rbac.py:101-110 | the corrected role has the declared name, is a system role and is active; `update_fields` names "name" exactly when the name drifted, and is empty exactly when nothing drifted |
| SeedCommand.UpsertRoleRow | dashboard_accessapp/management/commands/seed_dashboard_rbac.py:93-112 | the role step in place leaves the table and outcome that `UpsertRole` describes |
| SeedCommand.UpsertRolePerm | dashboard_accessapp/management/commands/seed_dashboard_rbac.py:129-139 | `_upsert_role_perm` in place leaves the table that `UpsertGrant` describes |
| SeedCommand.ApplyWildcard | dashboard_accessapp/management/commands/seed_dashboard_rbac.py:115-119 | the wildcard loop upserts the expanded targets in order |
| SeedCommand.ApplyEntries | dashboard_accessapp/management/commands/seed_dashboard_rbac.py:120-125 | the explicit loop upserts the known entries in order and returns the unknown codes as warnings |
| SeedCommand.SeedPermissionRows | dashboard_accessapp/management/commands/seed_dashboard_rbac.py:64-90 | the catalogue loop in place leaves the table, `perm_map` and key order that `SeedPermissions` describes |
| SeedCommand.SeedRole | dashboard_accessapp/management/commands/seed_dashboard_rbac.py:93-125 | one pass of the role loop in place equals `RoleStep` |
| SeedCommand.SeedRoleRows | dashboard_accessapp/management/commands/seed_dashboard_rbac.py:92-125 | the role loop in place equals `SeedRoles`; it stops at the first refused role |
| SeedCommand.Run | dashboard_accessapp/management/commands/seed_dashboard_rbac.py:60-127 | `handle` over any declarations leaves the store valid and in the state `Seed` describes; memberships are untouched |
| SeedCommand.Handle | dashboard_accessapp/management/commands/seed_dashboard_rbac.py:60-127 | the shipped run leaves the store valid, writes no warning, completes unless a role row has a system role's name under another slug, and, once completed, is a fixpoint of the seeder |

## Left out

- SoftDeleteManagers.HardDelete: the bulk `QuerySet.delete()` is modelled for a table that nothing references. The cascade to grants, the refusal for a role that memberships reference, and the count of cascaded rows are modelled only for the instance hard deletes, `RbacStore.HardDeletePermission` and `RbacStore.HardDeleteRole`.
- Output: the seeder's notices and styles on standard output are not modelled. The missing-code warnings are returned as a sequence of codes, in the order written.
- Time: `created_at`, `updated_at` and `timezone.now()` are not modelled; a deletion stamp is an opaque number passed in as `now`.
- Persistence: query compilation, `.only("id")`, the database's own ordering, transactions, and the race between concurrent `get_or_create` calls are not modelled. Rows sit in storage order and each operation runs alone.
- PermissionService.FindActivePermission: `.first()` orders by primary key and the model takes the first row in storage order. Codes are unique, so at most one row matches and the two agree.
- Objects: aliasing between a model instance and its row is not modelled. An instance is its row, found by primary key, and saving it replaces that row.
- Users: the user table and the user's own `is_active` and `deleted_at` are not modelled. The resolver never reads them; a user is its key and its two flags.
- Memberships: the cascade from hard-deleting a user is not modelled, because the user table is outside the model.
- Levels: `RolePermission.level` is a `Level` value. A stored integer outside the four choices, which the database would accept, is not modelled.
- Text fields: `max_length` limits and `__str__` are not modelled, since nothing in the core reads them.
- Keys: primary keys are handed out from a counter. A failed insert does not advance the counter in the model, whereas a database sequence may.
- Indexes: the `Meta.indexes` of the records are not modelled, since they affect speed only.
- Imports: `slugify` is imported by the seeder but never used.
- SeedProperties.SeedIsIdempotent: stated for a run that completes. Nothing is stated about running again after a run that a role-name conflict stopped.
- Dictionaries: a policy is the sequence of its items. The lemmas that rely on distinct keys require them, as a Python dict guarantees.
