/**
 * The client's capability check: the permission list of the page at a path,
 * looked up in the two-level menu the server sent, and the membership
 * predicates the pages test against it.
 */
module UsePermissions {
  import opened Common
  import opened Views

  // ---------------------------------------------------------------------
  // The lookup
  // ---------------------------------------------------------------------

  /** `children.find((c) => c.path === path)`: the first child at `path`, if any. */
  function FindChild(children: seq<MenuItem>, path: string): (r: Option<MenuItem>)
    ensures r.None? <==> forall j :: 0 <= j < |children| ==> children[j].path != path
    ensures r.Some? ==> r.value in children && r.value.path == path
  {
    if children == [] then None
    else if children[0].path == path then Some(children[0])
    else
      assert forall j :: 1 <= j < |children| ==> children[j] == children[1..][j - 1];
      FindChild(children[1..], path)
  }

  /** The child found is the first one at `path`. */
  lemma {:induction false} FindChildIsFirst(children: seq<MenuItem>, path: string, j: nat)
    requires j < |children| && children[j].path == path
    requires forall k :: 0 <= k < j ==> children[k].path != path
    ensures FindChild(children, path) == Some(children[j])
    decreases j
  {
    if j > 0 {
      FindChildIsFirst(children[1..], path, j - 1);
    }
  }

  /**
   * What one top-level item contributes to the lookup: its own permissions
   * when its path matches, otherwise those of its first child at the path.
   */
  function Match(item: MenuItem, path: string): Option<seq<string>> {
    if item.path == path then Some(item.permissions)
    else
      match FindChild(item.children, path)
      case Some(c) => Some(c.permissions)
      case None => None
  }

  /** The permissions the lookup settles on: the first top-level item that matches, or none. */
  function FindPermissions(menu: seq<MenuItem>, path: string): seq<string> {
    if menu == [] then []
    else
      match Match(menu[0], path)
      case Some(p) => p
      case None => FindPermissions(menu[1..], path)
  }

  /**
   * The hook's loop: top-level items in order, each item's own path before
   * its children, stopping at the first match. The permission list stays
   * empty when nothing matches.
   */
  method Lookup(menu: seq<MenuItem>, path: string) returns (permissions: seq<string>)
    ensures permissions == FindPermissions(menu, path)
  {
    permissions := [];
    var i := 0;
    while i < |menu|
      invariant 0 <= i <= |menu|
      invariant FindPermissions(menu, path) == FindPermissions(menu[i..], path)
      invariant permissions == []
    {
      var item := menu[i];
      assert menu[i..][0] == item && menu[i..][1..] == menu[i + 1..];
      if item.path == path {
        permissions := item.permissions;
        break;
      }
      var child := FindChild(item.children, path);
      if child.Some? {
        permissions := child.value.permissions;
        break;
      }
      i := i + 1;
    }
  }

  /** The first matching top-level item decides; an unmatched path gives the empty list. */
  lemma {:induction false} FirstMatchWins(menu: seq<MenuItem>, path: string)
    ensures (forall i :: 0 <= i < |menu| ==> Match(menu[i], path).None?) ==> FindPermissions(menu, path) == []
    ensures forall i :: 0 <= i < |menu| && Match(menu[i], path).Some? &&
                        (forall k :: 0 <= k < i ==> Match(menu[k], path).None?) ==>
                        FindPermissions(menu, path) == Match(menu[i], path).value
    decreases |menu|
  {
    if menu != [] {
      FirstMatchWins(menu[1..], path);
      assert forall i :: 1 <= i < |menu| ==> menu[i] == menu[1..][i - 1];
    }
  }

  /** An item's own path is checked before its children's. */
  lemma ParentBeforeChildren(item: MenuItem, path: string)
    requires item.path == path
    ensures Match(item, path) == Some(item.permissions)
  {
  }

  /** The menu with every child's own children dropped. */
  function Pruned(menu: seq<MenuItem>): (r: seq<MenuItem>)
    ensures |r| == |menu|
    ensures forall i :: 0 <= i < |menu| ==>
      r[i].path == menu[i].path && r[i].permissions == menu[i].permissions && |r[i].children| == |menu[i].children| &&
      forall j :: 0 <= j < |menu[i].children| ==>
        r[i].children[j] == menu[i].children[j].(children := [])
  {
    seq(|menu|, i requires 0 <= i < |menu| =>
      menu[i].(children := seq(|menu[i].children|, j requires 0 <= j < |menu[i].children| =>
                                 menu[i].children[j].(children := []))))
  }

  lemma {:induction false} FindChildIgnoresGrandchildren(children: seq<MenuItem>, pruned: seq<MenuItem>, path: string)
    requires |pruned| == |children|
    requires forall j :: 0 <= j < |children| ==> pruned[j] == children[j].(children := [])
    ensures FindChild(pruned, path).None? <==> FindChild(children, path).None?
    ensures FindChild(pruned, path).Some? ==>
              FindChild(pruned, path).value.permissions == FindChild(children, path).value.permissions
    decreases |children|
  {
    if children != [] {
      FindChildIgnoresGrandchildren(children[1..], pruned[1..], path);
    }
  }

  /** Only one level of children is searched: what lies below a child never matters. */
  lemma {:induction false} OneLevelOnly(menu: seq<MenuItem>, path: string)
    ensures FindPermissions(Pruned(menu), path) == FindPermissions(menu, path)
    decreases |menu|
  {
    if menu != [] {
      var p := Pruned(menu);
      FindChildIgnoresGrandchildren(menu[0].children, p[0].children, path);
      assert Match(p[0], path) == Match(menu[0], path);
      assert p[1..] == Pruned(menu[1..]);
      OneLevelOnly(menu[1..], path);
    }
  }

  // ---------------------------------------------------------------------
  // The predicates
  // ---------------------------------------------------------------------

  /** `permissions.includes(permission)`. */
  predicate HasPermission(permissions: seq<string>, permission: string) {
    permission in permissions
  }

  /** `perms.some((p) => permissions.includes(p))`. */
  function HasAnyPermission(permissions: seq<string>, perms: seq<string>): (r: bool)
    ensures r <==> exists i :: 0 <= i < |perms| && HasPermission(permissions, perms[i])
    ensures perms == [] ==> !r
  {
    if perms == [] then false
    else if HasPermission(permissions, perms[0]) then true
    else
      var r := HasAnyPermission(permissions, perms[1..]);
      assert forall i :: 1 <= i < |perms| ==> perms[i] == perms[1..][i - 1];
      r
  }

  /** `perms.every((p) => permissions.includes(p))`. */
  function HasAllPermissions(permissions: seq<string>, perms: seq<string>): (r: bool)
    ensures r <==> forall i :: 0 <= i < |perms| ==> HasPermission(permissions, perms[i])
    ensures perms == [] ==> r
  {
    if perms == [] then true
    else if !HasPermission(permissions, perms[0]) then false
    else
      var r := HasAllPermissions(permissions, perms[1..]);
      assert forall i :: 1 <= i < |perms| ==> perms[i] == perms[1..][i - 1];
      r
  }

  /** What the hook returns. */
  datatype Capabilities = Capabilities(permissions: seq<string>, canView: bool, canAdd: bool, canEdit: bool,
                                       canDelete: bool)

  /** The hook: the lookup, then the four CRUD shortcuts. */
  method Use(menu: seq<MenuItem>, path: string) returns (c: Capabilities)
    ensures c.permissions == FindPermissions(menu, path)
    ensures c.canView == HasPermission(c.permissions, "view")
    ensures c.canAdd == HasPermission(c.permissions, "add")
    ensures c.canEdit == HasPermission(c.permissions, "edit")
    ensures c.canDelete == HasPermission(c.permissions, "delete")
  {
    var permissions := Lookup(menu, path);
    c := Capabilities(permissions, "view" in permissions, "add" in permissions, "edit" in permissions,
                      "delete" in permissions);
  }

  /** A path that matches nothing denies every single check and every non-empty any/all check. */
  lemma UnknownPathDeniesAll(menu: seq<MenuItem>, path: string, permission: string, perms: seq<string>)
    requires forall i :: 0 <= i < |menu| ==> menu[i].path != path
    requires forall i, j :: 0 <= i < |menu| && 0 <= j < |menu[i].children| ==> menu[i].children[j].path != path
    ensures FindPermissions(menu, path) == []
    ensures !HasPermission(FindPermissions(menu, path), permission)
    ensures !HasAnyPermission(FindPermissions(menu, path), perms)
    ensures HasAllPermissions(FindPermissions(menu, path), perms) <==> perms == []
  {
    forall i | 0 <= i < |menu| ensures Match(menu[i], path).None? {
    }
    FirstMatchWins(menu, path);
    if perms != [] {
      assert !HasPermission([], perms[0]);
    }
  }

  /**
   * On a menu built by the server, a path that matches grants `view` and the
   * page's codenames are its module's merged codenames, sorted.
   */
  lemma FoundPathViewable(menu: seq<MenuItem>, merged: map<nat, Entry>, path: string)
    requires IsMenu(menu, merged)
    requires exists i :: 0 <= i < |menu| && Match(menu[i], path).Some?
    ensures HasPermission(FindPermissions(menu, path), ViewCodename)
    ensures exists m :: m in merged && SortedListOf(FindPermissions(menu, path), merged[m].codenames)
  {
    MenuItemsViewable(menu, merged);
    var i := FirstIndex(menu, path);
    FirstMatchWins(menu, path);
    var item := menu[i];
    assert ItemFor(item, merged) by {
      assert IsLevel(menu, TopIds(merged), merged);
    }
    if item.path != path {
      var c := FindChild(item.children, path);
      var j :| 0 <= j < |item.children| && item.children[j] == c.value;
      assert IsLevel(item.children, ChildIds(merged, item.id), merged);
      assert ItemFor(item.children[j], merged);
    }
  }

  /** The index of the first top-level item that matches. */
  lemma FirstIndex(menu: seq<MenuItem>, path: string) returns (i: nat)
    requires exists i :: 0 <= i < |menu| && Match(menu[i], path).Some?
    ensures i < |menu| && Match(menu[i], path).Some?
    ensures forall k :: 0 <= k < i ==> Match(menu[k], path).None?
  {
    var j :| 0 <= j < |menu| && Match(menu[j], path).Some?;
    i := 0;
    while Match(menu[i], path).None?
      invariant i <= j
      invariant forall k :: 0 <= k < i ==> Match(menu[k], path).None?
      decreases j - i
    {
      i := i + 1;
    }
  }
}
