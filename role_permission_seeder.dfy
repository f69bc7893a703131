/**
 * database/seeders/RolePermissionSeeder.php: empty `role_permissions`, then
 * insert one allowed row per (role, listed permission name) whose name
 * exists in `permissions`; a missing name is skipped.
 */
module RolePermissionSeeder {
  import opened Common
  import opened Permissions
  import PermissionSeeder

  const AdminPermissions: seq<string> := [
    "manage_users", "manage_projects", "manage_tasks", "view_projects",
    "view_reports", "export_data", "manage_settings", "manage_integrations",
    "manage_roles", "track_time", "manage_team", "assign_tasks",
    "comment_tasks", "upload_files", "view_own_reports", "view_time_tracking"]

  const ProjectManagerPermissions: seq<string> := [
    "manage_projects", "manage_tasks", "view_projects", "view_reports",
    "export_data", "manage_team", "track_time", "assign_tasks",
    "comment_tasks", "upload_files", "view_own_reports", "view_time_tracking"]

  const MemberPermissions: seq<string> := [
    "view_projects", "manage_own_tasks", "comment_tasks", "upload_files",
    "track_time", "view_own_reports"]

  /** The permission names listed for a role. */
  function NamesFor(role: Role): seq<string>
  {
    match role
    case Admin => AdminPermissions
    case ProjectManager => ProjectManagerPermissions
    case Member => MemberPermissions
  }

  /** The `$rolePermissions` array: each role with its names, in order. */
  const RoleAssignments: seq<(Role, seq<string>)> := [
    (Admin, AdminPermissions), (ProjectManager, ProjectManagerPermissions), (Member, MemberPermissions)]

  /** The position of a role in `RoleAssignments`. */
  function Position(role: Role): (i: nat)
    ensures i < |RoleAssignments| && RoleAssignments[i] == (role, NamesFor(role))
  {
    match role
    case Admin => 0
    case ProjectManager => 1
    case Member => 2
  }

  /** Some name of `names` is the name of permission `id`. */
  predicate NamedIn(perms: seq<Permission>, names: seq<string>, id: nat)
  {
    exists n :: n in names && IdOf(perms, n) == Some(id)
  }

  /** No name is listed twice for a role. */
  predicate Distinct(names: seq<string>)
  {
    forall i, j :: 0 <= i < j < |names| ==> names[i] != names[j]
  }

  /** The inner `foreach`: one allowed row per name of `names` found in `perms`. */
  function AddRole(m: map<GrantKey, bool>, perms: seq<Permission>, role: Role, names: seq<string>)
    : map<GrantKey, bool>
    decreases |names|
  {
    if |names| == 0 then m
    else
      var before := AddRole(m, perms, role, names[..|names| - 1]);
      match IdOf(perms, names[|names| - 1])
      case None => before
      case Some(id) => before[(role, id) := true]
  }

  /** The outer `foreach`, over the (role, names) pairs of `table` in order. */
  function AddRoles(m: map<GrantKey, bool>, perms: seq<Permission>, table: seq<(Role, seq<string>)>): map<GrantKey, bool>
    decreases |table|
  {
    if |table| == 0 then m
    else
      var last := table[|table| - 1];
      AddRole(AddRoles(m, perms, table[..|table| - 1]), perms, last.0, last.1)
  }

  /** Some entry of `table` is for the role of `k` and names its permission. */
  predicate Assigned(perms: seq<Permission>, table: seq<(Role, seq<string>)>, k: GrantKey)
  {
    exists i :: 0 <= i < |table| && table[i].0 == k.0 && NamedIn(perms, table[i].1, k.1)
  }

  /** No role has two entries. */
  predicate RolesDistinct(table: seq<(Role, seq<string>)>)
  {
    forall i, j :: 0 <= i < j < |table| ==> table[i].0 != table[j].0
  }

  /** The table the seeder leaves, which depends on the permissions only. */
  function Seeded(perms: seq<Permission>): map<GrantKey, bool>
  {
    AddRoles(map[], perms, RoleAssignments)
  }

  /** The rows a role's names add: for each name found, the pair of the role and that permission's id. */
  lemma {:induction false} AddRoleKeys(m: map<GrantKey, bool>, perms: seq<Permission>, role: Role, names: seq<string>)
    ensures forall k :: k in AddRole(m, perms, role, names) <==>
      k in m || (k.0 == role && NamedIn(perms, names, k.1))
    decreases |names|
  {
    if |names| > 0 {
      var init, last := names[..|names| - 1], names[|names| - 1];
      AddRoleKeys(m, perms, role, init);
      assert names == init + [last];
      forall id: nat ensures NamedIn(perms, names, id) <==> NamedIn(perms, init, id) || IdOf(perms, last) == Some(id) {
        NamedInSnoc(perms, init, last, id);
      }
    }
  }

  /** Every row the inner loop inserts is allowed. */
  lemma {:induction false} AddRoleAllowed(m: map<GrantKey, bool>, perms: seq<Permission>, role: Role, names: seq<string>)
    requires forall k :: k in m ==> m[k]
    ensures forall k :: k in AddRole(m, perms, role, names) ==> AddRole(m, perms, role, names)[k]
    decreases |names|
  {
    if |names| > 0 {
      AddRoleAllowed(m, perms, role, names[..|names| - 1]);
    }
  }

  /** A name appended to a list names what it names, besides what the list named. */
  lemma NamedInSnoc(perms: seq<Permission>, init: seq<string>, last: string, id: nat)
    ensures NamedIn(perms, init + [last], id) <==> NamedIn(perms, init, id) || IdOf(perms, last) == Some(id)
  {
    var names := init + [last];
    if NamedIn(perms, names, id) {
      var n :| n in names && IdOf(perms, n) == Some(id);
      assert n in init || n == last;
    }
    if IdOf(perms, last) == Some(id) {
      assert last in names;
    }
    if NamedIn(perms, init, id) {
      var n :| n in init && IdOf(perms, n) == Some(id);
      assert n in names;
    }
  }

  /** Names are unique, so two names with the same id are the same name. */
  lemma IdOfInjective(perms: seq<Permission>, nextId: nat, a: string, b: string)
    requires IdsOrdered(perms, nextId) && NamesUnique(perms)
    requires IdOf(perms, a).Some?
    ensures IdOf(perms, a) == IdOf(perms, b) ==> a == b
  {
    if IdOf(perms, a) == IdOf(perms, b) {
      var i :| 0 <= i < |perms| && perms[i].name == a && perms[i].id == IdOf(perms, a).value;
      var j :| 0 <= j < |perms| && perms[j].name == b && perms[j].id == IdOf(perms, b).value;
      assert i == j;
    }
  }

  /** The rows the entries of a table add are those of some entry. */
  lemma {:induction false} AddRolesKeys(perms: seq<Permission>, table: seq<(Role, seq<string>)>)
    ensures forall k :: k in AddRoles(map[], perms, table) <==> Assigned(perms, table, k)
    decreases |table|
  {
    if |table| > 0 {
      var init, last := table[..|table| - 1], table[|table| - 1];
      var before := AddRoles(map[], perms, init);
      AddRolesKeys(perms, init);
      AddRoleKeys(before, perms, last.0, last.1);
      assert AddRoles(map[], perms, table) == AddRole(before, perms, last.0, last.1);
      assert table == init + [last];
      forall k: GrantKey ensures k in AddRoles(map[], perms, table) <==> Assigned(perms, table, k) {
        AssignedSnoc(perms, init, last, k);
      }
    }
  }

  /** Every row the outer loop leaves is allowed. */
  lemma {:induction false} AddRolesAllowed(perms: seq<Permission>, table: seq<(Role, seq<string>)>)
    ensures forall k :: k in AddRoles(map[], perms, table) ==> AddRoles(map[], perms, table)[k]
    decreases |table|
  {
    if |table| > 0 {
      var init, last := table[..|table| - 1], table[|table| - 1];
      AddRolesAllowed(perms, init);
      AddRoleAllowed(AddRoles(map[], perms, init), perms, last.0, last.1);
    }
  }

  /** An entry appended to a table assigns its rows, besides those the table assigned. */
  lemma AssignedSnoc(perms: seq<Permission>, init: seq<(Role, seq<string>)>, last: (Role, seq<string>), k: GrantKey)
    ensures Assigned(perms, init + [last], k) <==> Assigned(perms, init, k) || (k.0 == last.0 && NamedIn(perms, last.1, k.1))
  {
    var table := init + [last];
    if Assigned(perms, table, k) {
      var i :| 0 <= i < |table| && table[i].0 == k.0 && NamedIn(perms, table[i].1, k.1);
      if i < |init| {
        assert table[i] == init[i];
      }
    }
    if Assigned(perms, init, k) {
      var i :| 0 <= i < |init| && init[i].0 == k.0 && NamedIn(perms, init[i].1, k.1);
      assert table[i] == init[i];
    }
    if k.0 == last.0 && NamedIn(perms, last.1, k.1) {
      assert table[|init|] == last;
    }
  }

  /**
   * The seeded table holds exactly one allowed row for each role and each
   * listed name of that role that names an existing permission.
   */
  lemma SeededExactly(perms: seq<Permission>)
    ensures forall k :: k in Seeded(perms) <==> NamedIn(perms, NamesFor(k.0), k.1)
    ensures forall k :: k in Seeded(perms) ==> Seeded(perms)[k]
  {
    AddRolesKeys(perms, RoleAssignments);
    AddRolesAllowed(perms, RoleAssignments);
    forall k: GrantKey ensures Assigned(perms, RoleAssignments, k) <==> NamedIn(perms, NamesFor(k.0), k.1) {
      var p := Position(k.0);
      if Assigned(perms, RoleAssignments, k) {
        var i :| 0 <= i < |RoleAssignments| && RoleAssignments[i].0 == k.0 && NamedIn(perms, RoleAssignments[i].1, k.1);
        EntryIsNamesFor(i);
      }
    }
  }

  /** Each entry of `RoleAssignments` carries the names listed for its role. */
  lemma EntryIsNamesFor(i: nat)
    requires i < |RoleAssignments|
    ensures RoleAssignments[i].1 == NamesFor(RoleAssignments[i].0)
  {
  }

  /** Every name a role is given is one the permission seeder inserts. */
  lemma ListedNamesAreSeeded(role: Role, n: string)
    requires n in NamesFor(role)
    ensures n in PermissionSeeder.ListNames(PermissionSeeder.PermissionList)
  {
    SeededNames();
  }

  /** The names of the permission seeder's list, in order. */
  lemma SeededNames()
    ensures PermissionSeeder.ListNames(PermissionSeeder.PermissionList) == [
      "manage_users", "manage_projects", "manage_tasks", "manage_own_tasks",
      "view_projects", "view_reports", "export_data", "manage_settings", "manage_integrations",
      "manage_roles", "track_time", "manage_team", "assign_tasks", "comment_tasks",
      "upload_files", "view_own_reports", "view_time_tracking"]
  {
  }

  /** Once both seeders have run, each role holds every permission listed for it. */
  lemma SeedersTogether(perms: seq<Permission>, nextId: nat, role: Role, n: string)
    requires n in NamesFor(role)
    ensures var p := PermissionSeeder.Seed(perms, nextId, PermissionSeeder.PermissionList).0;
      IdOf(p, n).Some? && (role, IdOf(p, n).value) in Seeded(p)
  {
    var p := PermissionSeeder.Seed(perms, nextId, PermissionSeeder.PermissionList).0;
    ListedNamesAreSeeded(role, n);
    var names := PermissionSeeder.ListNames(PermissionSeeder.PermissionList);
    var k :| 0 <= k < |names| && names[k] == n;
    PermissionSeeder.SeedCoversList(perms, nextId, PermissionSeeder.PermissionList);
    assert PermissionSeeder.PermissionList[k].0 == n;
    SeededExactly(p);
    assert NamedIn(p, NamesFor(role), IdOf(p, n).value);
  }

  /** Admins are not given `manage_own_tasks`; members get neither task nor project management. */
  lemma RoleListFacts()
    ensures "manage_own_tasks" !in NamesFor(Admin)
    ensures "manage_tasks" !in NamesFor(Member) && "manage_projects" !in NamesFor(Member)
    ensures "manage_own_tasks" in NamesFor(Member)
  {
  }

  /** No role lists a name twice, so the seeder never inserts a pair twice. */
  lemma RoleListsDistinct(role: Role)
    ensures Distinct(NamesFor(role))
  {
    match role
    case Admin => AdminListDistinct();
    case ProjectManager => assert Distinct(ProjectManagerPermissions);
    case Member => assert Distinct(MemberPermissions);
  }

  lemma AdminListDistinct()
    ensures Distinct(AdminPermissions)
  {
  }

  /** The row for the `j`-th name is not among those the earlier names added. */
  lemma FreshGrant(m: map<GrantKey, bool>, perms: seq<Permission>, nextId: nat, role: Role, names: seq<string>, j: nat)
    requires IdsOrdered(perms, nextId) && NamesUnique(perms) && Distinct(names)
    requires j < |names| && IdOf(perms, names[j]).Some?
    requires forall k :: k in m ==> k.0 != role
    ensures (role, IdOf(perms, names[j]).value) !in AddRole(m, perms, role, names[..j])
  {
    AddRoleKeys(m, perms, role, names[..j]);
    forall n | n in names[..j] ensures IdOf(perms, n) != IdOf(perms, names[j]) {
      var k :| 0 <= k < j && names[..j][k] == n;
      assert names[k] != names[j];
      IdOfInjective(perms, nextId, names[j], n);
    }
  }

  /** A name that is found names a permission of the table. */
  lemma FoundIdExists(perms: seq<Permission>, name: string)
    requires IdOf(perms, name).Some?
    ensures IdOf(perms, name).value in PermissionIds(perms)
  {
    var i :| 0 <= i < |perms| && perms[i].name == name && perms[i].id == IdOf(perms, name).value;
  }

  /**
   * The inner `foreach` for one role: each name is looked up in the
   * permissions read at the start, and a found one is inserted as an
   * allowed row. The pair is always new, since the names are distinct and
   * so are the permissions they name.
   */
  method SeedRole(store: AccessStore, perms: seq<Permission>, role: Role, names: seq<string>)
    requires store.Valid() && store.permissions == perms && Distinct(names)
    requires forall k :: k in store.grants ==> k.0 != role
    modifies store
    ensures store.Valid() && store.permissions == perms && store.nextPermissionId == old(store.nextPermissionId)
    ensures store.grants == AddRole(old(store.grants), perms, role, names)
  {
    ghost var m := store.grants;
    for j := 0 to |names|
      invariant store.Valid() && store.permissions == perms && store.nextPermissionId == old(store.nextPermissionId)
      invariant store.grants == AddRole(m, perms, role, names[..j])
    {
      assert names[..j + 1][..j] == names[..j];
      var found := IdOf(perms, names[j]);
      if found.Some? {
        FreshGrant(m, perms, store.nextPermissionId, role, names, j);
        FoundIdExists(perms, names[j]);
        store.InsertGrant(role, found.value);
      }
    }
    assert names[..|names|] == names;
  }

  /** With distinct roles, the rows of the entries before the `i`-th carry none of its role. */
  lemma NextRoleFresh(perms: seq<Permission>, table: seq<(Role, seq<string>)>, i: nat)
    requires RolesDistinct(table) && i < |table|
    ensures forall k :: k in AddRoles(map[], perms, table[..i]) ==> k.0 != table[i].0
  {
    AddRolesKeys(perms, table[..i]);
    forall k | Assigned(perms, table[..i], k) ensures k.0 != table[i].0 {
      var j :| 0 <= j < i && table[..i][j].0 == k.0 && NamedIn(perms, table[..i][j].1, k.1);
      assert table[..i][j] == table[j];
    }
  }

  /**
   * The outer `foreach` over any table whose roles are distinct and whose
   * name lists repeat no name.
   */
  method SeedRoles(store: AccessStore, table: seq<(Role, seq<string>)>)
    requires store.Valid() && store.grants == map[]
    requires RolesDistinct(table) && forall i :: 0 <= i < |table| ==> Distinct(table[i].1)
    modifies store
    ensures store.Valid()
    ensures store.permissions == old(store.permissions) && store.nextPermissionId == old(store.nextPermissionId)
    ensures store.grants == AddRoles(map[], store.permissions, table)
  {
    var perms := store.permissions;
    for i := 0 to |table|
      invariant store.Valid() && store.permissions == perms
      invariant store.nextPermissionId == old(store.nextPermissionId)
      invariant store.grants == AddRoles(map[], perms, table[..i])
    {
      NextRoleFresh(perms, table, i);
      SeedRole(store, perms, table[i].0, table[i].1);
      assert table[..i + 1][..i] == table[..i];
    }
    assert table[..|table|] == table;
  }

  /**
   * `run`: read the permissions, empty `role_permissions`, then insert the
   * rows role by role. The result depends only on the permissions, so a
   * rerun leaves the same table.
   */
  method Run(store: AccessStore)
    requires store.Valid()
    modifies store
    ensures store.Valid()
    ensures store.permissions == old(store.permissions) && store.nextPermissionId == old(store.nextPermissionId)
    ensures store.grants == Seeded(store.permissions)
  {
    store.TruncateGrants();
    RolesDistinctListed();
    SeedRoles(store, RoleAssignments);
  }

  /** The roles of `RoleAssignments` are distinct, and so are the names of each. */
  lemma RolesDistinctListed()
    ensures RolesDistinct(RoleAssignments)
    ensures forall i :: 0 <= i < |RoleAssignments| ==> Distinct(RoleAssignments[i].1)
  {
    forall i | 0 <= i < |RoleAssignments| ensures Distinct(RoleAssignments[i].1) {
      EntryIsNamesFor(i);
      RoleListsDistinct(RoleAssignments[i].0);
    }
  }
}
