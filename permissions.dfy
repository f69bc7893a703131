/**
 * The `permissions` and `role_permissions` tables as their migration
 * declares them: permission names are unique, and `role_permissions` holds
 * at most one row per (role, permission) pair, so it is a map from the pair
 * to its `allowed` flag. Both seeders and `UserController` work on this
 * store.
 */
module Permissions {
  import opened Common

  /** The `role` enum of `users` and `role_permissions`. */
  datatype Role = Admin | ProjectManager | Member
  {
    function Name(): string
    {
      match this
      case Admin => "admin"
      case ProjectManager => "project_manager"
      case Member => "member"
    }
  }

  const RoleNames: seq<string> := ["admin", "project_manager", "member"]

  /** The role a string names, if any. */
  function RoleOf(s: string): (r: Option<Role>)
    ensures r.Some? <==> s in RoleNames
    ensures r.Some? ==> r.value.Name() == s
  {
    if s == "admin" then Some(Admin)
    else if s == "project_manager" then Some(ProjectManager)
    else if s == "member" then Some(Member)
    else None
  }

  /** Every role has its own name. */
  lemma RoleOfName(r: Role)
    ensures RoleOf(r.Name()) == Some(r)
  {
  }

  /** One row of `permissions`. */
  datatype Permission = Permission(id: nat, name: string, description: Option<string>)

  /** The names of the rows, in order. */
  function Names(perms: seq<Permission>): (r: seq<string>)
    ensures |r| == |perms|
    ensures forall i :: 0 <= i < |perms| ==> r[i] == perms[i].name
    decreases |perms|
  {
    if |perms| == 0 then [] else Names(perms[..|perms| - 1]) + [perms[|perms| - 1].name]
  }

  /** `->where('name', $n)->first()`: the id of the first row with that name. */
  function IdOf(perms: seq<Permission>, name: string): (r: Option<nat>)
    ensures r.None? <==> name !in Names(perms)
    ensures r.Some? ==> exists i :: 0 <= i < |perms| && perms[i].name == name && perms[i].id == r.value
    decreases |perms|
  {
    if |perms| == 0 then None
    else if perms[0].name == name then Some(perms[0].id)
    else
      var rest := IdOf(perms[1..], name);
      assert Names(perms[1..]) == Names(perms)[1..];
      rest
  }

  /** The ids of the rows. */
  function PermissionIds(perms: seq<Permission>): set<nat>
  {
    set i | 0 <= i < |perms| :: perms[i].id
  }

  /** Ids grow along the table and stay below the next one to hand out. */
  predicate IdsOrdered(perms: seq<Permission>, nextId: nat)
  {
    && (forall i :: 0 <= i < |perms| ==> perms[i].id < nextId)
    && (forall i, j :: 0 <= i < j < |perms| ==> perms[i].id < perms[j].id)
  }

  /** The unique index on `permissions.name`. */
  predicate NamesUnique(perms: seq<Permission>)
  {
    forall i, j :: 0 <= i < j < |perms| ==> perms[i].name != perms[j].name
  }

  /** The key of `role_permissions`' unique index. */
  type GrantKey = (Role, nat)

  /** The foreign key of `role_permissions.permission_id`. */
  predicate GrantsReferToPermissions(grants: map<GrantKey, bool>, perms: seq<Permission>)
  {
    forall k :: k in grants ==> k.1 in PermissionIds(perms)
  }

  /**
   * `insertOrIgnore`: a row whose name is taken is ignored, otherwise it is
   * added with the next id. `InsertOrIgnoreExtends` states what this keeps.
   */
  function InsertOrIgnore(perms: seq<Permission>, nextId: nat, name: string, description: string)
    : (r: (seq<Permission>, nat))
    ensures name in Names(perms) ==> r == (perms, nextId)
    ensures name !in Names(perms) ==>
      r == (perms + [Permission(nextId, name, Some(description))], nextId + 1)
  {
    if name in Names(perms) then (perms, nextId)
    else (perms + [Permission(nextId, name, Some(description))], nextId + 1)
  }

  /**
   * `insertOrIgnore` only appends: existing rows are kept, the name is
   * present afterwards, and the unique index and the id order still hold.
   */
  lemma InsertOrIgnoreExtends(perms: seq<Permission>, nextId: nat, name: string, description: string)
    ensures var r := InsertOrIgnore(perms, nextId, name, description);
      |perms| <= |r.0| <= |perms| + 1 && r.0[..|perms|] == perms && name in Names(r.0)
    ensures NamesUnique(perms) ==> NamesUnique(InsertOrIgnore(perms, nextId, name, description).0)
    ensures IdsOrdered(perms, nextId) ==>
      var r := InsertOrIgnore(perms, nextId, name, description);
      IdsOrdered(r.0, r.1)
  {
    if name !in Names(perms) {
      var q := perms + [Permission(nextId, name, Some(description))];
      assert Names(q)[|perms|] == name;
      assert q[..|perms|] == perms;
      forall i | 0 <= i < |perms| ensures perms[i].name != name {
        assert Names(perms)[i] == perms[i].name;
      }
    }
  }

  /** Both tables. */
  class AccessStore {
    var permissions: seq<Permission>
    var nextPermissionId: nat
    var grants: map<GrantKey, bool>

    ghost predicate Valid()
      reads this
    {
      && IdsOrdered(permissions, nextPermissionId)
      && NamesUnique(permissions)
      && GrantsReferToPermissions(grants, permissions)
    }

    constructor ()
      ensures Valid()
      ensures permissions == [] && nextPermissionId == 1 && grants == map[]
    {
      permissions := [];
      nextPermissionId := 1;
      grants := map[];
    }

    /** `DB::table('permissions')->insertOrIgnore(...)` on one name. */
    method InsertOrIgnorePermission(name: string, description: string)
      requires Valid()
      modifies this
      ensures Valid()
      ensures (permissions, nextPermissionId) == InsertOrIgnore(old(permissions), old(nextPermissionId), name, description)
      ensures grants == old(grants)
    {
      if name !in Names(permissions) {
        var p := Permission(nextPermissionId, name, Some(description));
        assert PermissionIds(permissions) <= PermissionIds(permissions + [p]) by {
          forall x | x in PermissionIds(permissions) ensures x in PermissionIds(permissions + [p]) {
            var j :| 0 <= j < |permissions| && permissions[j].id == x;
            assert (permissions + [p])[j] == permissions[j];
          }
        }
        assert forall i :: 0 <= i < |permissions| ==> permissions[i].name != name by {
          forall i | 0 <= i < |permissions| ensures permissions[i].name != name {
            assert Names(permissions)[i] == permissions[i].name;
          }
        }
        permissions := permissions + [p];
        nextPermissionId := nextPermissionId + 1;
      }
    }

    /** `DB::table('role_permissions')->truncate()`. */
    method TruncateGrants()
      requires Valid()
      modifies this
      ensures Valid()
      ensures grants == map[]
      ensures permissions == old(permissions) && nextPermissionId == old(nextPermissionId)
    {
      grants := map[];
    }

    /** `DB::table('role_permissions')->insert(...)`: the pair must be new and the permission exist. */
    method InsertGrant(role: Role, permissionId: nat)
      requires Valid() && permissionId in PermissionIds(permissions) && (role, permissionId) !in grants
      modifies this
      ensures Valid()
      ensures grants == old(grants)[(role, permissionId) := true]
      ensures permissions == old(permissions) && nextPermissionId == old(nextPermissionId)
    {
      grants := grants[(role, permissionId) := true];
    }

    /**
     * Insert or update the row of one (role, permission) pair; the
     * permission must exist.
     */
    method PutGrant(role: Role, permissionId: nat, allowed: bool)
      requires Valid() && permissionId in PermissionIds(permissions)
      modifies this
      ensures Valid()
      ensures grants == old(grants)[(role, permissionId) := allowed]
      ensures permissions == old(permissions) && nextPermissionId == old(nextPermissionId)
    {
      grants := grants[(role, permissionId) := allowed];
    }
  }
}
