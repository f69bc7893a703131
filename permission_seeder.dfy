/**
 * database/seeders/PermissionSeeder.php: one `insertOrIgnore` per listed
 * permission. The unique index on the name makes a name already present a
 * no-op, so the seeder can be rerun.
 */
module PermissionSeeder {
  import opened Common
  import opened Permissions

  /** The seeded (name, description) pairs, in order. */
  const PermissionList: seq<(string, string)> := [
    ("manage_users", "Manage all users"),
    ("manage_projects", "Create, edit, delete projects"),
    ("manage_tasks", "Create, edit, delete tasks"),
    ("manage_own_tasks", "Manage own assigned tasks"),
    ("view_projects", "View project details"),
    ("view_reports", "View reports and analytics"),
    ("export_data", "Export project or report data"),
    ("manage_settings", "Change system settings"),
    ("manage_integrations", "Manage third-party integrations"),
    ("manage_roles", "Manage user roles and permissions"),
    ("track_time", "Track and log time entries"),
    ("manage_team", "Manage team members"),
    ("assign_tasks", "Assign tasks to team members"),
    ("comment_tasks", "Add comments to tasks"),
    ("upload_files", "Upload files to projects"),
    ("view_own_reports", "View own task reports"),
    ("view_time_tracking", "View time tracking data")
  ]

  /** The names of a list of (name, description) pairs. */
  function ListNames(list: seq<(string, string)>): (r: seq<string>)
    ensures |r| == |list| && forall k :: 0 <= k < |list| ==> r[k] == list[k].0
  {
    seq(|list|, k requires 0 <= k < |list| => list[k].0)
  }

  /** The table after one `insertOrIgnore` per entry of `list`, in order. */
  function Seed(perms: seq<Permission>, nextId: nat, list: seq<(string, string)>): (r: (seq<Permission>, nat))
    decreases |list|
  {
    if |list| == 0 then (perms, nextId)
    else
      var before := Seed(perms, nextId, list[..|list| - 1]);
      var last := list[|list| - 1];
      InsertOrIgnore(before.0, before.1, last.0, last.1)
  }

  /** A name stays present when rows are only appended. */
  lemma NamesKept(p: seq<Permission>, q: seq<Permission>, name: string)
    requires |p| <= |q| && q[..|p|] == p && name in Names(p)
    ensures name in Names(q)
  {
    var i :| 0 <= i < |p| && Names(p)[i] == name;
    assert q[i] == p[i];
    assert Names(q)[i] == name;
  }

  /** Seeding only appends: every existing row, its description included, is kept. */
  lemma {:induction false} SeedExtends(perms: seq<Permission>, nextId: nat, list: seq<(string, string)>)
    ensures |perms| <= |Seed(perms, nextId, list).0|
    ensures Seed(perms, nextId, list).0[..|perms|] == perms
    decreases |list|
  {
    if |list| > 0 {
      SeedExtends(perms, nextId, list[..|list| - 1]);
    }
  }

  /** After seeding, every listed name is present. */
  lemma {:induction false} SeedCoversList(perms: seq<Permission>, nextId: nat, list: seq<(string, string)>)
    ensures forall k :: 0 <= k < |list| ==> list[k].0 in Names(Seed(perms, nextId, list).0)
    decreases |list|
  {
    if |list| > 0 {
      var init := list[..|list| - 1];
      var before := Seed(perms, nextId, init);
      var after := Seed(perms, nextId, list);
      SeedCoversList(perms, nextId, init);
      var last := list[|list| - 1];
      assert after == InsertOrIgnore(before.0, before.1, last.0, last.1);
      assert |before.0| <= |after.0| && after.0[..|before.0|] == before.0;
      forall k | 0 <= k < |list| ensures list[k].0 in Names(after.0) {
        if k < |list| - 1 {
          assert init[k] == list[k];
          NamesKept(before.0, after.0, list[k].0);
        } else if last.0 !in Names(before.0) {
          assert Names(after.0)[|before.0|] == last.0;
        }
      }
    }
  }

  /** A list whose names are all present already changes nothing. */
  lemma {:induction false} SeedIgnoresKnown(perms: seq<Permission>, nextId: nat, list: seq<(string, string)>)
    requires forall k :: 0 <= k < |list| ==> list[k].0 in Names(perms)
    ensures Seed(perms, nextId, list) == (perms, nextId)
    decreases |list|
  {
    if |list| > 0 {
      var init := list[..|list| - 1];
      assert forall k :: 0 <= k < |init| ==> init[k] == list[k];
      SeedIgnoresKnown(perms, nextId, init);
    }
  }

  /** A rerun of the seeder adds no rows and changes none. */
  lemma SeedIdempotent(perms: seq<Permission>, nextId: nat, list: seq<(string, string)>)
    ensures var once := Seed(perms, nextId, list); Seed(once.0, once.1, list) == once
  {
    var once := Seed(perms, nextId, list);
    SeedCoversList(perms, nextId, list);
    SeedIgnoresKnown(once.0, once.1, list);
  }

  /** Seeding brings in no name other than the listed ones. */
  lemma {:induction false} SeedAddsOnlyListed(perms: seq<Permission>, nextId: nat, list: seq<(string, string)>, name: string)
    requires name !in Names(perms) && name !in ListNames(list)
    ensures name !in Names(Seed(perms, nextId, list).0)
    decreases |list|
  {
    if |list| > 0 {
      var init := list[..|list| - 1];
      assert ListNames(init) == ListNames(list)[..|list| - 1];
      SeedAddsOnlyListed(perms, nextId, init, name);
      var before := Seed(perms, nextId, init);
      var last := list[|list| - 1];
      if last.0 !in Names(before.0) {
        var after := before.0 + [Permission(before.1, last.0, Some(last.1))];
        assert Names(after) == Names(before.0) + [last.0];
      }
    }
  }

  /** The document and folder permissions, left commented out in the list, are never seeded. */
  lemma DocumentPermissionsNotSeeded(perms: seq<Permission>, nextId: nat, name: string)
    requires name in ["upload_documents", "view_documents", "delete_documents", "edit_documents",
      "preview_documents", "download_documents", "create_folders", "rename_folders",
      "delete_folders", "view_folders"]
    requires name !in Names(perms)
    ensures name !in Names(Seed(perms, nextId, PermissionList).0)
  {
    SeedAddsOnlyListed(perms, nextId, PermissionList, name);
  }

  /** The `foreach` of `run` over any list of pairs. */
  method InsertAll(store: AccessStore, list: seq<(string, string)>)
    requires store.Valid()
    modifies store
    ensures store.Valid() && store.grants == old(store.grants)
    ensures (store.permissions, store.nextPermissionId) == Seed(old(store.permissions), old(store.nextPermissionId), list)
  {
    ghost var p0, n0 := store.permissions, store.nextPermissionId;
    for k := 0 to |list|
      invariant store.Valid() && store.grants == old(store.grants)
      invariant (store.permissions, store.nextPermissionId) == Seed(p0, n0, list[..k])
    {
      var entry := list[k];
      ghost var before := (store.permissions, store.nextPermissionId);
      store.InsertOrIgnorePermission(entry.0, entry.1);
      assert list[..k + 1][..k] == list[..k];
      assert Seed(p0, n0, list[..k + 1]) == InsertOrIgnore(before.0, before.1, entry.0, entry.1);
    }
    assert list[..|list|] == list;
  }

  /**
   * `run`: the listed permissions are inserted in order, skipping each one
   * whose name is present; role grants are not touched.
   */
  method Run(store: AccessStore)
    requires store.Valid()
    modifies store
    ensures store.Valid() && store.grants == old(store.grants)
    ensures (store.permissions, store.nextPermissionId) == Seed(old(store.permissions), old(store.nextPermissionId), PermissionList)
    ensures forall k :: 0 <= k < |PermissionList| ==> PermissionList[k].0 in Names(store.permissions)
  {
    ghost var p0, n0 := store.permissions, store.nextPermissionId;
    InsertAll(store, PermissionList);
    SeedCoversList(p0, n0, PermissionList);
  }
}
