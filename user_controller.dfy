/**
 * app/Http/Controllers/Api/UserController.php: changing a user's role,
 * setting a role's permissions by upsert, and listing the permissions a
 * user's role allows.
 */
module UserController {
  import opened Common
  import opened Permissions

  /** The columns of `users` these endpoints touch. */
  datatype UserAccount = UserAccount(id: nat, name: string, email: string, role: Role)

  /** The index of the user with id `id`, if there is one. */
  function FindUser(users: seq<UserAccount>, id: nat): (r: Option<nat>)
    ensures r.None? <==> forall i :: 0 <= i < |users| ==> users[i].id != id
    ensures r.Some? ==> r.value < |users| && users[r.value].id == id
    ensures r.Some? ==> forall i :: 0 <= i < r.value ==> users[i].id != id
    decreases |users|
  {
    if |users| == 0 then None
    else if users[0].id == id then Some(0)
    else
      match FindUser(users[1..], id)
      case None => None
      case Some(i) => Some(i + 1)
  }

  /** The `users` table. */
  class UserTable {
    var rows: seq<UserAccount>

    /** The primary key: no id twice. */
    ghost predicate Valid()
      reads this
    {
      forall i, j :: 0 <= i < j < |rows| ==> rows[i].id != rows[j].id
    }

    constructor (rows0: seq<UserAccount>)
      requires forall i, j :: 0 <= i < j < |rows0| ==> rows0[i].id != rows0[j].id
      ensures Valid() && rows == rows0
    {
      rows := rows0;
    }

    /** `$user->role = ...; $user->save()` on the row at index `i`. */
    method SetRole(i: nat, role: Role)
      requires Valid() && i < |rows|
      modifies this
      ensures Valid()
      ensures rows == old(rows)[i := old(rows[i]).(role := role)]
    {
      rows := rows[i := rows[i].(role := role)];
    }
  }

  /**
   * `updateRole`: a role outside the enum gives 422 (the request is
   * validated before the user is looked up), an unknown user 404; otherwise
   * only that user's role changes.
   */
  method UpdateRole(users: UserTable, id: nat, role: Field<string>) returns (code: int)
    requires users.Valid()
    modifies users
    ensures users.Valid()
    ensures !(role.Given? && role.value in RoleNames) ==> code == 422 && users.rows == old(users.rows)
    ensures role.Given? && role.value in RoleNames && FindUser(old(users.rows), id).None? ==>
      code == 404 && users.rows == old(users.rows)
    ensures role.Given? && role.value in RoleNames && FindUser(old(users.rows), id).Some? ==>
      var i := FindUser(old(users.rows), id).value;
      && code == 200
      && users.rows == old(users.rows)[i := old(users.rows)[i].(role := RoleOf(role.value).value)]
      && users.rows[i].role.Name() == role.value
  {
    if !(role.Given? && RoleOf(role.value).Some?) {
      return 422;
    }
    match FindUser(users.rows, id)
    case None =>
      return 404;
    case Some(i) =>
      users.SetRole(i, RoleOf(role.value).value);
      code := 200;
  }

  /** One element of the `permissions` array of a request. */
  datatype PermissionEntry = PermissionEntry(permissionId: Field<nat>, allowed: Field<bool>)

  /**
   * The rules of `setRolePermissions`: `permissions` is an array if sent,
   * and each element names an existing permission and a boolean.
   */
  predicate EntriesValid(entries: Field<seq<PermissionEntry>>, perms: seq<Permission>)
  {
    entries.Absent? ||
    (entries.Given? && forall k :: 0 <= k < |entries.value| ==>
      && entries.value[k].permissionId.Given?
      && entries.value[k].permissionId.value in PermissionIds(perms)
      && entries.value[k].allowed.Given?)
  }

  /** The (permission id, allowed) pairs of validated entries. */
  function Pairs(entries: seq<PermissionEntry>): (r: seq<(nat, bool)>)
    requires forall k :: 0 <= k < |entries| ==> entries[k].permissionId.Given? && entries[k].allowed.Given?
    ensures |r| == |entries|
    ensures forall k :: 0 <= k < |entries| ==> r[k] == (entries[k].permissionId.value, entries[k].allowed.value)
  {
    seq(|entries|, k requires 0 <= k < |entries| => (entries[k].permissionId.value, entries[k].allowed.value))
  }

  /** The `foreach` of `updateOrCreate` calls: each pair overwrites or creates the row of its key. */
  function Upserted(m: map<GrantKey, bool>, role: Role, pairs: seq<(nat, bool)>): map<GrantKey, bool>
    decreases |pairs|
  {
    if |pairs| == 0 then m
    else
      var last := pairs[|pairs| - 1];
      Upserted(m, role, pairs[..|pairs| - 1])[(role, last.0) := last.1]
  }

  /** Some pair names permission `id`. */
  predicate Listed(pairs: seq<(nat, bool)>, id: nat)
  {
    exists k :: 0 <= k < |pairs| && pairs[k].0 == id
  }

  /**
   * After the upserts the table has a row for every listed pair besides the
   * rows it had, and every row no pair names is as it was.
   */
  lemma {:induction false} UpsertedKeys(m: map<GrantKey, bool>, role: Role, pairs: seq<(nat, bool)>)
    ensures forall k :: k in Upserted(m, role, pairs) <==> k in m || (k.0 == role && Listed(pairs, k.1))
    ensures forall k :: k in m && !(k.0 == role && Listed(pairs, k.1)) ==> Upserted(m, role, pairs)[k] == m[k]
    decreases |pairs|
  {
    if |pairs| > 0 {
      var init, last := pairs[..|pairs| - 1], pairs[|pairs| - 1];
      UpsertedKeys(m, role, init);
      assert pairs == init + [last];
      forall id: nat ensures Listed(pairs, id) <==> Listed(init, id) || last.0 == id {
        ListedSnoc(init, last, id);
      }
    }
  }

  lemma ListedSnoc(init: seq<(nat, bool)>, last: (nat, bool), id: nat)
    ensures Listed(init + [last], id) <==> Listed(init, id) || last.0 == id
  {
    var pairs := init + [last];
    if Listed(pairs, id) {
      var k :| 0 <= k < |pairs| && pairs[k].0 == id;
      if k < |init| {
        assert init[k] == pairs[k];
      }
    }
    if Listed(init, id) {
      var k :| 0 <= k < |init| && init[k].0 == id;
      assert pairs[k] == init[k];
    }
    assert pairs[|init|] == last;
  }

  /** A pair no later pair overrides leaves its value in the table: the last entry for a permission wins. */
  lemma {:induction false} UpsertedLastWins(m: map<GrantKey, bool>, role: Role, pairs: seq<(nat, bool)>, j: nat)
    requires j < |pairs| && forall l :: j < l < |pairs| ==> pairs[l].0 != pairs[j].0
    ensures (role, pairs[j].0) in Upserted(m, role, pairs) && Upserted(m, role, pairs)[(role, pairs[j].0)] == pairs[j].1
    decreases |pairs|
  {
    var init := pairs[..|pairs| - 1];
    if j < |init| {
      assert init[j] == pairs[j];
      assert forall l :: j < l < |init| ==> init[l] == pairs[l];
      UpsertedLastWins(m, role, init, j);
    }
  }

  /**
   * `setRolePermissions`: a broken rule gives 422; an absent `permissions`
   * key reaches the `foreach` as null, a PHP warning that becomes a 500; a
   * role outside the enum fails the first insert, also a 500. Otherwise
   * every pair is upserted in order and 200 returned.
   */
  method SetRolePermissions(store: AccessStore, role: string, entries: Field<seq<PermissionEntry>>)
    returns (code: int)
    requires store.Valid()
    modifies store
    ensures store.Valid()
    ensures store.permissions == old(store.permissions) && store.nextPermissionId == old(store.nextPermissionId)
    ensures !EntriesValid(entries, old(store.permissions)) ==> code == 422 && store.grants == old(store.grants)
    ensures EntriesValid(entries, old(store.permissions)) && entries.Absent? ==>
      code == 500 && store.grants == old(store.grants)
    ensures EntriesValid(entries, old(store.permissions)) && entries.Given? && role !in RoleNames ==>
      store.grants == old(store.grants) && (code == 500 <==> |entries.value| > 0) && (code == 200 <==> |entries.value| == 0)
    ensures EntriesValid(entries, old(store.permissions)) && entries.Given? && role in RoleNames ==>
      code == 200 && store.grants == Upserted(old(store.grants), RoleOf(role).value, Pairs(entries.value))
  {
    if !EntriesValid(entries, store.permissions) {
      return 422;
    }
    if entries.Absent? {
      return 500;
    }
    var list := entries.value;
    if RoleOf(role).None? {
      code := if |list| > 0 then 500 else 200;
      return;
    }
    var r := RoleOf(role).value;
    var pairs := Pairs(list);
    ghost var m := store.grants;
    for k := 0 to |pairs|
      invariant store.Valid()
      invariant store.permissions == old(store.permissions) && store.nextPermissionId == old(store.nextPermissionId)
      invariant store.grants == Upserted(m, r, pairs[..k])
    {
      assert pairs[..k + 1][..k] == pairs[..k];
      store.PutGrant(r, pairs[k].0, pairs[k].1);
    }
    assert pairs[..|pairs|] == pairs;
    code := 200;
  }

  /** The permissions whose row for `role` has `allowed` set, in the order of `permissions`. */
  function Allowed(perms: seq<Permission>, grants: map<GrantKey, bool>, role: Role): (r: seq<Permission>)
    ensures |r| <= |perms|
    ensures forall p :: p in r <==> p in perms && (role, p.id) in grants && grants[(role, p.id)]
    decreases |perms|
  {
    if |perms| == 0 then []
    else
      var p := perms[0];
      (if (role, p.id) in grants && grants[(role, p.id)] then [p] else []) + Allowed(perms[1..], grants, role)
  }

  /**
   * `getUserPermissions`: `None` (404) for an unknown user, otherwise the
   * permissions the user's role is allowed.
   */
  function GetUserPermissions(users: seq<UserAccount>, perms: seq<Permission>, grants: map<GrantKey, bool>, userId: nat)
    : (r: Option<seq<Permission>>)
    ensures r.None? <==> forall i :: 0 <= i < |users| ==> users[i].id != userId
    ensures r.Some? ==> exists i :: 0 <= i < |users| && users[i].id == userId && r.value == Allowed(perms, grants, users[i].role)
  {
    match FindUser(users, userId)
    case None => None
    case Some(i) => Some(Allowed(perms, grants, users[i].role))
  }

  /**
   * Once a role's permissions are set, a user of that role is reported with
   * a permission exactly when its last entry allowed it.
   */
  lemma SetThenGet(m: map<GrantKey, bool>, role: Role, pairs: seq<(nat, bool)>, perms: seq<Permission>, j: nat, p: Permission)
    requires j < |pairs| && forall l :: j < l < |pairs| ==> pairs[l].0 != pairs[j].0
    requires p in perms && p.id == pairs[j].0
    ensures p in Allowed(perms, Upserted(m, role, pairs), role) <==> pairs[j].1
  {
    UpsertedLastWins(m, role, pairs, j);
  }
}
