/**
 * The server side of the access-control core: merging the grants of all of a
 * user's roles, building the two-level navigation menu from the merged
 * grants, creating a module together with its permission definitions, and
 * reconciling a module's definitions against a submitted list.
 */
module Views {
  import opened Common
  import opened Models

  /** The codename that puts a module in the menu. */
  const ViewCodename := "view"

  datatype ViewError = BadRequest | NoSuchModule | ServerError

  // ---------------------------------------------------------------------
  // Merging the grants of several roles
  // ---------------------------------------------------------------------

  /** One entry of the merged dictionary: the module row and the codenames granted on it. */
  datatype Entry = Entry(mod: Module, codenames: set<string>)

  /** Grant row `g` is selected: it belongs to one of `roles` and its module is active. */
  predicate RowCounts(grants: map<nat, Grant>, modules: map<nat, Module>, roles: set<nat>, g: nat) {
    g in grants && grants[g].role in roles && grants[g].moduleId in modules && modules[grants[g].moduleId].isActive
  }

  /**
   * `merged` is the merge of the selected grant rows: one entry per module
   * that has a selected row (even one granting nothing), holding the union
   * of the codenames those rows grant.
   */
  ghost predicate IsMerged(merged: map<nat, Entry>, grants: map<nat, Grant>, perms: map<nat, PermissionDef>,
                           modules: map<nat, Module>, roles: set<nat>) {
    && (forall m :: m in merged <==> exists g :: RowCounts(grants, modules, roles, g) && grants[g].moduleId == m)
    && (forall m :: m in merged ==> m in modules && merged[m].mod == modules[m])
    && (forall m, c :: m in merged ==>
          (c in merged[m].codenames <==>
             exists g :: RowCounts(grants, modules, roles, g) && grants[g].moduleId == m &&
                         c in CodenamesOf(grants[g].granted, perms)))
  }

  /** The codenames of `ids` added to `acc`, one definition at a time. */
  method AddCodenames(acc: set<string>, ids: set<nat>, perms: map<nat, PermissionDef>) returns (r: set<string>)
    ensures r == acc + CodenamesOf(ids, perms)
  {
    r := acc;
    var todo: set<nat>, done: set<nat> := ids, {};
    while todo != {}
      invariant done + todo == ids && done !! todo
      invariant r == acc + CodenamesOf(done, perms)
      decreases |todo|
    {
      var p :| p in todo;
      AddStep(acc, done, p, perms, r);
      r := if p in perms then r + {perms[p].codename} else r;
      todo, done := todo - {p}, done + {p};
    }
  }

  lemma AddStep(acc: set<string>, done: set<nat>, p: nat, perms: map<nat, PermissionDef>, r: set<string>)
    requires r == acc + CodenamesOf(done, perms)
    ensures (if p in perms then r + {perms[p].codename} else r) == acc + CodenamesOf(done + {p}, perms)
  {
  }

  /** `merged` is the merge of the grant rows `done`. */
  ghost predicate MergedOver(merged: map<nat, Entry>, grants: map<nat, Grant>, perms: map<nat, PermissionDef>,
                             modules: map<nat, Module>, done: set<nat>)
    requires done <= grants.Keys
  {
    && (forall m :: m in merged <==> exists g :: g in done && grants[g].moduleId == m)
    && (forall m :: m in merged ==> m in modules && merged[m].mod == modules[m])
    && (forall m, c :: m in merged ==>
          (c in merged[m].codenames <==>
             exists g :: g in done && grants[g].moduleId == m && c in CodenamesOf(grants[g].granted, perms)))
  }

  /** Merging one more row into the entry of its module. */
  lemma MergeStep(merged: map<nat, Entry>, grants: map<nat, Grant>, perms: map<nat, PermissionDef>,
                  modules: map<nat, Module>, done: set<nat>, g: nat)
    requires done <= grants.Keys && g in grants && grants[g].moduleId in modules
    requires MergedOver(merged, grants, perms, modules, done)
    ensures MergedOver(merged[grants[g].moduleId := Entry(modules[grants[g].moduleId],
                                                          Existing(merged, grants[g].moduleId) +
                                                          CodenamesOf(grants[g].granted, perms))],
                       grants, perms, modules, done + {g})
  {
    var m0 := grants[g].moduleId;
    var next := merged[m0 := Entry(modules[m0], Existing(merged, m0) + CodenamesOf(grants[g].granted, perms))];
    forall m | true
      ensures m in next <==> exists h :: h in done + {g} && grants[h].moduleId == m
    {
      if m == m0 {
        assert g in done + {g} && grants[g].moduleId == m;
      } else if m in merged {
        var h :| h in done && grants[h].moduleId == m;
        assert h in done + {g};
      }
    }
    forall m, c | m in next
      ensures c in next[m].codenames <==>
        exists h :: h in done + {g} && grants[h].moduleId == m && c in CodenamesOf(grants[h].granted, perms)
    {
      if m == m0 {
        if c in next[m].codenames {
          if c !in CodenamesOf(grants[g].granted, perms) {
            assert m in merged && c in merged[m].codenames;
            var h :| h in done && grants[h].moduleId == m && c in CodenamesOf(grants[h].granted, perms);
            assert h in done + {g};
          }
        }
        if exists h :: h in done + {g} && grants[h].moduleId == m && c in CodenamesOf(grants[h].granted, perms) {
          var h :| h in done + {g} && grants[h].moduleId == m && c in CodenamesOf(grants[h].granted, perms);
          if h != g {
            assert h in done;
            assert m in merged;
          }
        }
      } else {
        if exists h :: h in done + {g} && grants[h].moduleId == m && c in CodenamesOf(grants[h].granted, perms) {
          var h :| h in done + {g} && grants[h].moduleId == m && c in CodenamesOf(grants[h].granted, perms);
          assert h in done;
        }
      }
    }
  }

  /** The codenames merged so far for module `m`. */
  function Existing(merged: map<nat, Entry>, m: nat): set<string> {
    if m in merged then merged[m].codenames else {}
  }

  /** The grant rows of `roles` on active modules, merged with OR per module. */
  method MergedPermissions(store: Store, roles: set<nat>) returns (merged: map<nat, Entry>)
    requires store.Valid()
    ensures IsMerged(merged, store.grants, store.perms, store.modules, roles)
  {
    var grants, perms, modules := store.grants, store.perms, store.modules;
    var rows := set g | g in grants && RowCounts(grants, modules, roles, g);
    merged := map[];
    var todo, done := rows, {};
    while todo != {}
      invariant todo <= rows && done == rows - todo
      invariant MergedOver(merged, grants, perms, modules, done)
      decreases |todo|
    {
      var g :| g in todo;
      var m := grants[g].moduleId;
      var acc := AddCodenames(Existing(merged, m), grants[g].granted, perms);
      MergeStep(merged, grants, perms, modules, done, g);
      merged := merged[m := Entry(modules[m], acc)];
      todo, done := todo - {g}, done + {g};
    }
    MergedOverSelected(merged, grants, perms, modules, roles, done);
  }

  /** Having merged exactly the selected rows is `IsMerged`. */
  lemma MergedOverSelected(merged: map<nat, Entry>, grants: map<nat, Grant>, perms: map<nat, PermissionDef>,
                           modules: map<nat, Module>, roles: set<nat>, rows: set<nat>)
    requires rows == set g | g in grants && RowCounts(grants, modules, roles, g)
    requires MergedOver(merged, grants, perms, modules, rows)
    ensures IsMerged(merged, grants, perms, modules, roles)
  {
    assert forall g :: g in rows <==> RowCounts(grants, modules, roles, g);
  }

  /** Modules that are not active never have an entry. */
  lemma MergedModulesActive(merged: map<nat, Entry>, grants: map<nat, Grant>, perms: map<nat, PermissionDef>,
                            modules: map<nat, Module>, roles: set<nat>, m: nat)
    requires IsMerged(merged, grants, perms, modules, roles)
    requires m in merged
    ensures m in modules && modules[m].isActive && merged[m].mod.isActive
  {
    var g :| RowCounts(grants, modules, roles, g) && grants[g].moduleId == m;
  }

  /** With no roles nothing is merged. */
  lemma NoRolesNothingMerged(merged: map<nat, Entry>, grants: map<nat, Grant>, perms: map<nat, PermissionDef>,
                             modules: map<nat, Module>)
    requires IsMerged(merged, grants, perms, modules, {})
    ensures merged == map[]
  {
    assert forall g :: !RowCounts(grants, modules, {}, g);
    assert merged.Keys == {};
  }

  /** The merge is determined by the tables and the roles. */
  lemma MergedUnique(m1: map<nat, Entry>, m2: map<nat, Entry>, grants: map<nat, Grant>, perms: map<nat, PermissionDef>,
                     modules: map<nat, Module>, roles: set<nat>)
    requires IsMerged(m1, grants, perms, modules, roles) && IsMerged(m2, grants, perms, modules, roles)
    ensures m1 == m2
  {
    forall m | m in m1 ensures m in m2 && m1[m] == m2[m] {
      assert m1[m].codenames == m2[m].codenames;
    }
    assert m1.Keys == m2.Keys;
  }

  // ---------------------------------------------------------------------
  // The menu
  // ---------------------------------------------------------------------

  /**
   * A menu item. Top-level items carry their children; a child item's
   * `children` is empty (the source emits no such key for children).
   */
  datatype MenuItem = MenuItem(id: nat, name: string, icon: Option<string>, path: string, order: int,
                               permissions: seq<string>, children: seq<MenuItem>)

  function Ids(items: seq<MenuItem>): seq<nat> {
    seq(|items|, i requires 0 <= i < |items| => items[i].id)
  }

  /** The modules placed at the top level: `view` granted and no parent. */
  function TopIds(merged: map<nat, Entry>): set<nat> {
    set m | m in merged && ViewCodename in merged[m].codenames && merged[m].mod.parent.None?
  }

  /** The modules placed under `pid`: `view` granted and `pid` as parent. */
  function ChildIds(merged: map<nat, Entry>, pid: nat): set<nat> {
    set m | m in merged && ViewCodename in merged[m].codenames && merged[m].mod.parent == Some(pid)
  }

  /** `it` shows module `it.id`'s fields and its merged codenames, sorted. */
  ghost predicate ItemFor(it: MenuItem, merged: map<nat, Entry>) {
    && it.id in merged
    && it.name == merged[it.id].mod.name
    && it.icon == merged[it.id].mod.icon
    && it.path == merged[it.id].mod.path
    && it.order == merged[it.id].mod.order
    && SortedListOf(it.permissions, merged[it.id].codenames)
  }

  /** One level of the menu: one item per module of `ids`, in non-decreasing `order`. */
  ghost predicate IsLevel(items: seq<MenuItem>, ids: set<nat>, merged: map<nat, Entry>) {
    && NoDup(Ids(items))
    && Elems(Ids(items)) == ids
    && (forall i, j :: 0 <= i < j < |items| ==> items[i].order <= items[j].order)
    && (forall i :: 0 <= i < |items| ==> ItemFor(items[i], merged))
  }

  /** The menu built from `merged`: two levels, the second without children. */
  ghost predicate IsMenu(menu: seq<MenuItem>, merged: map<nat, Entry>) {
    && IsLevel(menu, TopIds(merged), merged)
    && (forall i :: 0 <= i < |menu| ==> IsLevel(menu[i].children, ChildIds(merged, menu[i].id), merged))
    && (forall i, j :: 0 <= i < |menu| && 0 <= j < |menu[i].children| ==> menu[i].children[j].children == [])
  }

  /**
   * The ids of `s` in an arbitrary order (a dictionary's or an unordered
   * query's), then stably sorted by `orders`.
   */
  method OrderedIds(orders: map<nat, int>, s: set<nat>) returns (ids: seq<nat>)
    requires s <= orders.Keys
    ensures NoDup(ids) && Elems(ids) == s
    ensures forall i, j :: 0 <= i < j < |ids| ==> orders[ids[i]] <= orders[ids[j]]
  {
    var listed := ListOf(s);
    ids := SortByKey(listed, (m: nat) => if m in orders then orders[m] else 0);
    NoDupPermutation(listed, ids);
    assert forall x :: x in ids <==> x in multiset(ids);
    assert forall x :: x in listed <==> x in multiset(listed);
    assert Elems(ids) == Elems(listed);
  }

  function MenuOrders(merged: map<nat, Entry>): map<nat, int> {
    map m | m in merged :: merged[m].mod.order
  }

  /** The item for module `m`, its codenames emitted as Python's `sorted` does. */
  method MakeItem(merged: map<nat, Entry>, m: nat, children: seq<MenuItem>) returns (it: MenuItem)
    requires m in merged
    ensures ItemFor(it, merged) && it.id == m && it.children == children
  {
    var e := merged[m];
    var codenames := Sorted(e.codenames);
    it := MenuItem(m, e.mod.name, e.mod.icon, e.mod.path, e.mod.order, codenames, children);
  }

  /** The children of `pid` that have `view`, ordered. */
  method BuildChildren(merged: map<nat, Entry>, pid: nat) returns (children: seq<MenuItem>)
    ensures IsLevel(children, ChildIds(merged, pid), merged)
    ensures forall j :: 0 <= j < |children| ==> children[j].children == []
  {
    var kids := OrderedIds(MenuOrders(merged), ChildIds(merged, pid));
    children := [];
    var j := 0;
    while j < |kids|
      invariant 0 <= j <= |kids|
      invariant Ids(children) == kids[..j]
      invariant forall k :: 0 <= k < j ==> ItemFor(children[k], merged) && children[k].children == []
    {
      assert kids[j] in Elems(kids);
      var it := MakeItem(merged, kids[j], []);
      children := children + [it];
      j := j + 1;
    }
    assert kids[..j] == kids;
    assert forall a, b :: 0 <= a < b < |children| ==> children[a].order <= children[b].order by {
      assert forall k :: 0 <= k < |children| ==> children[k].order == merged[kids[k]].mod.order;
    }
  }

  /** `_build_menu`: the top-level modules with `view`, each with its children. */
  method BuildMenu(merged: map<nat, Entry>) returns (menu: seq<MenuItem>)
    ensures IsMenu(menu, merged)
  {
    var parents := OrderedIds(MenuOrders(merged), TopIds(merged));
    menu := [];
    var i := 0;
    while i < |parents|
      invariant 0 <= i <= |parents|
      invariant Ids(menu) == parents[..i]
      invariant forall k :: 0 <= k < i ==> ItemFor(menu[k], merged)
      invariant forall k :: 0 <= k < i ==> IsLevel(menu[k].children, ChildIds(merged, menu[k].id), merged)
      invariant forall k, j :: 0 <= k < i && 0 <= j < |menu[k].children| ==> menu[k].children[j].children == []
    {
      var children := BuildChildren(merged, parents[i]);
      assert parents[i] in Elems(parents);
      var it := MakeItem(merged, parents[i], children);
      menu := menu + [it];
      i := i + 1;
    }
    assert parents[..i] == parents;
    assert forall a, b :: 0 <= a < b < |menu| ==> menu[a].order <= menu[b].order by {
      assert forall k :: 0 <= k < |menu| ==> menu[k].order == merged[parents[k]].mod.order;
    }
  }

  /** `UserMenuView.get`: no roles gives an empty menu; otherwise merge, then build. */
  method UserMenu(store: Store, roles: set<nat>) returns (menu: seq<MenuItem>)
    requires store.Valid()
    ensures roles == {} ==> menu == []
    ensures exists merged :: IsMerged(merged, store.grants, store.perms, store.modules, roles) && IsMenu(menu, merged)
  {
    if roles == {} {
      menu := [];
      var none: map<nat, Entry> := map[];
      assert IsMerged(none, store.grants, store.perms, store.modules, roles);
      assert TopIds(none) == {};
      assert IsMenu(menu, none);
      return;
    }
    var merged := MergedPermissions(store, roles);
    menu := BuildMenu(merged);
  }

  /** A module is at the top level iff it has `view` in its merged set and no parent. */
  lemma {:induction false} TopLevelMembership(menu: seq<MenuItem>, merged: map<nat, Entry>, m: nat)
    requires IsMenu(menu, merged)
    ensures (exists i :: 0 <= i < |menu| && menu[i].id == m) <==>
            (m in merged && ViewCodename in merged[m].codenames && merged[m].mod.parent.None?)
  {
    if exists i :: 0 <= i < |menu| && menu[i].id == m {
      var i :| 0 <= i < |menu| && menu[i].id == m;
      assert Ids(menu)[i] == m;
    }
    if m in TopIds(merged) {
      assert m in Elems(Ids(menu));
      var i :| 0 <= i < |menu| && Ids(menu)[i] == m;
      assert menu[i].id == m;
    }
  }

  /**
   * A child appears only under a top-level item whose id is its parent, and
   * only with `view`; so a module two levels below the top never appears.
   */
  lemma ChildPlacement(menu: seq<MenuItem>, merged: map<nat, Entry>, i: nat, j: nat)
    requires IsMenu(menu, merged)
    requires i < |menu| && j < |menu[i].children|
    ensures menu[i].children[j].id in merged
    ensures ViewCodename in merged[menu[i].children[j].id].codenames
    ensures merged[menu[i].children[j].id].mod.parent == Some(menu[i].id)
    ensures menu[i].id in merged && merged[menu[i].id].mod.parent.None?
  {
    var c := menu[i].children[j];
    assert Ids(menu[i].children)[j] == c.id;
    assert c.id in ChildIds(merged, menu[i].id);
    assert Ids(menu)[i] == menu[i].id;
    assert menu[i].id in TopIds(merged);
  }

  /** Every item of the menu, at either level, lists `view` among its codenames. */
  lemma MenuItemsViewable(menu: seq<MenuItem>, merged: map<nat, Entry>)
    requires IsMenu(menu, merged)
    ensures forall i :: 0 <= i < |menu| ==> ViewCodename in menu[i].permissions
    ensures forall i, j :: 0 <= i < |menu| && 0 <= j < |menu[i].children| ==>
      ViewCodename in menu[i].children[j].permissions
  {
    forall i | 0 <= i < |menu| ensures ViewCodename in menu[i].permissions {
      assert Ids(menu)[i] == menu[i].id;
      assert menu[i].id in TopIds(merged);
      assert ViewCodename in Elems(menu[i].permissions);
    }
    forall i, j | 0 <= i < |menu| && 0 <= j < |menu[i].children|
      ensures ViewCodename in menu[i].children[j].permissions
    {
      ChildPlacement(menu, merged, i, j);
      assert ViewCodename in Elems(menu[i].children[j].permissions);
    }
  }

  /** A module is at the top level of a user's menu iff, in the tables, it is active, has no
   *  parent, and one of the user's roles has a grant row on it that grants a `view` definition. */
  lemma TopLevelFromTables(menu: seq<MenuItem>, merged: map<nat, Entry>, grants: map<nat, Grant>,
                           perms: map<nat, PermissionDef>, modules: map<nat, Module>, roles: set<nat>, m: nat)
    requires IsMerged(merged, grants, perms, modules, roles) && IsMenu(menu, merged)
    ensures (exists i :: 0 <= i < |menu| && menu[i].id == m) <==>
            (m in modules && modules[m].isActive && modules[m].parent.None? &&
             exists g :: RowCounts(grants, modules, roles, g) && grants[g].moduleId == m &&
                         ViewCodename in CodenamesOf(grants[g].granted, perms))
  {
    TopLevelMembership(menu, merged, m);
    if m in modules && modules[m].isActive && modules[m].parent.None? &&
       exists g :: RowCounts(grants, modules, roles, g) && grants[g].moduleId == m &&
                   ViewCodename in CodenamesOf(grants[g].granted, perms) {
      var g :| RowCounts(grants, modules, roles, g) && grants[g].moduleId == m &&
               ViewCodename in CodenamesOf(grants[g].granted, perms);
      assert m in merged;
    }
  }

  // ---------------------------------------------------------------------
  // Top-level module list
  // ---------------------------------------------------------------------

  /** `ModuleListCreateView.get`: the modules without a parent, active or not, by `order`. */
  method ListModules(store: Store) returns (ids: seq<nat>)
    ensures NoDup(ids) && Elems(ids) == set k | k in store.modules && store.modules[k].parent.None?
    ensures forall i :: 0 <= i < |ids| ==> ids[i] in store.modules
    ensures forall i, j :: 0 <= i < j < |ids| ==> store.modules[ids[i]].order <= store.modules[ids[j]].order
  {
    var orders := map k | k in store.modules :: store.modules[k].order;
    ids := OrderedIds(orders, set k | k in store.modules && store.modules[k].parent.None?);
    assert forall i :: 0 <= i < |ids| ==> ids[i] in Elems(ids);
  }

  // ---------------------------------------------------------------------
  // Creating and updating a module with its permission definitions
  // ---------------------------------------------------------------------

  /** One entry of a submitted `permissions` list; an absent key is `None`. */
  datatype PermInput = PermInput(codename: string, title: string, category: Option<string>, order: Option<int>)

  /**
   * The definition written for entry `i` of the list on module `m`: the
   * category defaults to `crud` and the order to the entry's position plus one.
   */
  function Wanted(m: nat, items: seq<PermInput>, i: nat): (d: PermissionDef)
    requires i < |items|
    ensures d.moduleId == m && d.codename == items[i].codename && d.title == items[i].title
    ensures items[i].category.None? ==> d.category == DefaultCategory
    ensures items[i].order.None? ==> d.order == i + 1
  {
    PermissionDef(m, items[i].codename, items[i].title, items[i].category.GetOr(DefaultCategory),
                  items[i].order.GetOr(i + 1))
  }

  /** The codenames of a submitted list. */
  function Submitted(items: seq<PermInput>): set<string> {
    set i | 0 <= i < |items| :: items[i].codename
  }

  predicate DistinctCodenames(items: seq<PermInput>) {
    forall i, j :: 0 <= i < j < |items| ==> items[i].codename != items[j].codename
  }

  /** The last position before `n` holding codename `c`, or -1 if there is none. */
  function LastBefore(items: seq<PermInput>, n: nat, c: string): (k: int)
    requires n <= |items|
    ensures -1 <= k < n
    ensures k >= 0 ==> items[k].codename == c
    ensures forall j :: k < j < n ==> items[j].codename != c
  {
    if n == 0 then -1
    else if items[n - 1].codename == c then n - 1
    else LastBefore(items, n - 1, c)
  }

  /** The definitions of module `m` are exactly those written for the first `n` entries. */
  ghost predicate Defines(perms: map<nat, PermissionDef>, m: nat, items: seq<PermInput>, n: nat)
    requires n <= |items|
  {
    && (forall j: nat :: j < n ==> Wanted(m, items, j) in perms.Values)
    && (forall p :: p in perms && perms[p].moduleId == m ==> exists j: nat :: j < n && perms[p] == Wanted(m, items, j))
  }

  /**
   * `ModuleCreateWithPermissionsView.post`. An invalid parent is a 400 and
   * changes nothing. Otherwise the module is saved and the definitions are
   * created one by one; a codename repeated in the list violates the
   * uniqueness constraint on the second create, after the module and the
   * earlier definitions were already saved.
   */
  method CreateWithPermissions(store: Store, m: Module, items: seq<PermInput>) returns (r: Result<nat, ViewError>)
    requires store.Valid()
    modifies store
    ensures store.Valid()
    ensures r == Err(BadRequest) <==> m.parent.Some? && m.parent.value !in old(store.modules)
    ensures r == Err(BadRequest) ==> store.modules == old(store.modules) && store.perms == old(store.perms)
    ensures r.Ok? <==> (m.parent.Some? ==> m.parent.value in old(store.modules)) && DistinctCodenames(items)
    ensures r.Ok? ==>
      r.value !in old(store.modules) && store.modules == old(store.modules)[r.value := m] &&
      Defines(store.perms, r.value, items, |items|)
    ensures r == Err(ServerError) ==>
      exists id, k :: id !in old(store.modules) && store.modules == old(store.modules)[id := m] &&
                      0 < k < |items| && DistinctCodenames(items[..k]) && items[k].codename in Submitted(items[..k]) &&
                      Defines(store.perms, id, items, k)
    ensures r != Err(NoSuchModule)
    ensures forall p :: p in old(store.perms) ==> p in store.perms && store.perms[p] == old(store.perms)[p]
    ensures forall p :: p in store.perms && p !in old(store.perms) ==> store.perms[p].moduleId !in old(store.modules)
    ensures store.grants == old(store.grants) && store.roles == old(store.roles)
  {
    var ins := store.InsertModule(m);
    if ins.Err? {
      return Err(BadRequest);
    }
    var id := ins.value;
    DefinesNothingYet(store.perms, id, items);
    var i := 0;
    while i < |items|
      invariant 0 <= i <= |items|
      invariant store.Valid()
      invariant id !in old(store.modules) && store.modules == old(store.modules)[id := m]
      invariant DistinctCodenames(items[..i])
      invariant Defines(store.perms, id, items, i)
      invariant forall p :: p in old(store.perms) ==> p in store.perms && store.perms[p] == old(store.perms)[p]
      invariant forall p :: p in store.perms && p !in old(store.perms) ==> store.perms[p].moduleId == id
      invariant store.grants == old(store.grants) && store.roles == old(store.roles)
    {
      DefinedCodenames(store.perms, id, items, i);
      ghost var prev := store.perms;
      var res := store.InsertPermission(Wanted(id, items, i));
      if res.Err? {
        assert items[i].codename in Submitted(items[..i]);
        assert i > 0;
        return Err(ServerError);
      }
      DistinctExtend(items, i);
      DefinesStep(prev, store.perms, id, items, i, res.value);
      i := i + 1;
    }
    assert items[..i] == items;
    return Ok(id);
  }

  /** A module that is not in the tables has no definitions yet. */
  lemma DefinesNothingYet(perms: map<nat, PermissionDef>, m: nat, items: seq<PermInput>)
    requires forall p :: p in perms ==> perms[p].moduleId != m
    ensures Defines(perms, m, items, 0)
  {
  }

  lemma DefinesStep(prev: map<nat, PermissionDef>, cur: map<nat, PermissionDef>, m: nat, items: seq<PermInput>,
                    i: nat, id: nat)
    requires i < |items| && Defines(prev, m, items, i)
    requires id !in prev && cur == prev[id := Wanted(m, items, i)]
    ensures Defines(cur, m, items, i + 1)
  {
    forall j: nat | j < i + 1 ensures Wanted(m, items, j) in cur.Values {
      if j == i {
        assert cur[id] == Wanted(m, items, j);
      } else {
        assert Wanted(m, items, j) in prev.Values;
        var p :| p in prev && prev[p] == Wanted(m, items, j);
        assert cur[p] == Wanted(m, items, j);
      }
    }
    forall p | p in cur && cur[p].moduleId == m ensures exists j: nat :: j < i + 1 && cur[p] == Wanted(m, items, j) {
      if p == id {
        assert cur[p] == Wanted(m, items, i);
      } else {
        var j: nat :| j < i && prev[p] == Wanted(m, items, j);
        assert cur[p] == Wanted(m, items, j);
      }
    }
  }

  lemma DistinctExtend(items: seq<PermInput>, i: nat)
    requires i < |items| && DistinctCodenames(items[..i]) && items[i].codename !in Submitted(items[..i])
    ensures DistinctCodenames(items[..i + 1])
  {
    var t := items[..i + 1];
    forall a, b | 0 <= a < b < |t| ensures t[a].codename != t[b].codename {
      if b == i {
        assert items[..i][a].codename == items[a].codename;
      } else {
        assert items[..i][a] == items[a] && items[..i][b] == items[b];
      }
    }
  }

  /** Under `Defines`, module `m` has a definition of `c` iff `c` is among the first `n` codenames. */
  lemma DefinedCodenames(perms: map<nat, PermissionDef>, m: nat, items: seq<PermInput>, n: nat)
    requires n <= |items| && Defines(perms, m, items, n)
    ensures forall c :: (exists p :: p in perms && perms[p].moduleId == m && perms[p].codename == c) <==>
                        c in Submitted(items[..n])
  {
    forall c | exists p :: p in perms && perms[p].moduleId == m && perms[p].codename == c
      ensures c in Submitted(items[..n])
    {
      var p :| p in perms && perms[p].moduleId == m && perms[p].codename == c;
      var j: nat :| j < n && perms[p] == Wanted(m, items, j);
      assert items[..n][j].codename == c;
    }
    forall c | c in Submitted(items[..n])
      ensures exists p :: p in perms && perms[p].moduleId == m && perms[p].codename == c
    {
      SubmittedDefined(perms, m, items, n, c);
    }
  }

  lemma SubmittedDefined(perms: map<nat, PermissionDef>, m: nat, items: seq<PermInput>, n: nat, c: string)
    requires n <= |items| && Defines(perms, m, items, n) && c in Submitted(items[..n])
    ensures exists p :: p in perms && perms[p].moduleId == m && perms[p].codename == c
  {
    var j: nat :| j < n && items[..n][j].codename == c;
    assert Wanted(m, items, j) in perms.Values;
    var p :| p in perms && perms[p] == Wanted(m, items, j);
    assert perms[p].moduleId == m && perms[p].codename == c;
  }

  /** The module fields of an update request; an absent key is `None`. */
  datatype ModulePatch = ModulePatch(name: Option<string>, icon: Option<Option<string>>, path: Option<string>,
                                     parent: Option<Option<nat>>, order: Option<int>, isActive: Option<bool>)

  /** A partial update: the given fields replace the module's, the others stay. */
  function ApplyPatch(m: Module, patch: ModulePatch): Module {
    Module(patch.name.GetOr(m.name), patch.icon.GetOr(m.icon), patch.path.GetOr(m.path),
           patch.parent.GetOr(m.parent), patch.order.GetOr(m.order), patch.isActive.GetOr(m.isActive))
  }

  /** Only the `parent` key can fail validation: it must name an existing module. */
  predicate PatchValid(modules: map<nat, Module>, patch: ModulePatch) {
    patch.parent.Some? && patch.parent.value.Some? ==> patch.parent.value.value in modules
  }

  /** An empty patch changes nothing; applying a patch twice is applying it once. */
  lemma PatchLaws(m: Module, patch: ModulePatch)
    ensures ApplyPatch(m, ModulePatch(None, None, None, None, None, None)) == m
    ensures ApplyPatch(ApplyPatch(m, patch), patch) == ApplyPatch(m, patch)
  {
  }

  /** The definitions of module `m` whose codenames are no longer submitted. */
  function Removed(perms: map<nat, PermissionDef>, m: nat, items: seq<PermInput>): set<nat> {
    set p | p in perms && perms[p].moduleId == m && perms[p].codename !in Submitted(items)
  }

  /** Other modules' definitions are as in `before`, and none was added to them. */
  ghost predicate OthersKept(before: map<nat, PermissionDef>, after: map<nat, PermissionDef>, m: nat) {
    && (forall p :: p in before && before[p].moduleId != m ==> p in after && after[p] == before[p])
    && (forall p :: p in after && after[p].moduleId != m ==> p in before)
  }

  /** Every definition of module `m` has a submitted codename. */
  ghost predicate OnlySubmitted(after: map<nat, PermissionDef>, m: nat, items: seq<PermInput>) {
    forall p :: p in after && after[p].moduleId == m ==> after[p].codename in Submitted(items)
  }

  /** Each of the first `n` entries' codenames is defined with the fields of its last entry before `n`. */
  ghost predicate LastWins(after: map<nat, PermissionDef>, m: nat, items: seq<PermInput>, n: nat)
    requires n <= |items|
  {
    forall j :: 0 <= j < n ==> Wanted(m, items, LastBefore(items, n, items[j].codename)) in after.Values
  }

  /** A definition of module `m` whose codename is still submitted keeps its id. */
  ghost predicate IdsKept(before: map<nat, PermissionDef>, after: map<nat, PermissionDef>, m: nat,
                          items: seq<PermInput>) {
    forall p :: (p in before && before[p].moduleId == m && before[p].codename in Submitted(items)) ==> p in after
  }

  /** The state after the deletions and the first `n` upserts. */
  ghost predicate ReconciledUpTo(before: map<nat, PermissionDef>, after: map<nat, PermissionDef>, m: nat,
                                 items: seq<PermInput>, n: nat)
    requires n <= |items|
  {
    OthersKept(before, after, m) && OnlySubmitted(after, m, items) && LastWins(after, m, items, n) &&
    IdsKept(before, after, m, items)
  }

  /**
   * `after` reconciles module `m`'s definitions in `before` with `items`:
   * other modules' definitions are untouched, `m`'s codenames are exactly the
   * submitted ones, each carries the fields of the LAST entry with its
   * codename, and a definition that stays keeps its id.
   */
  ghost predicate Reconciled(before: map<nat, PermissionDef>, after: map<nat, PermissionDef>, m: nat,
                             items: seq<PermInput>) {
    ReconciledUpTo(before, after, m, items, |items|)
  }

  /** Deletes the definitions no longer listed, then updates or creates each listed one in turn. */
  method ReconcilePermissions(store: Store, m: nat, items: seq<PermInput>)
    requires store.Valid() && m in store.modules
    modifies store
    ensures store.Valid()
    ensures Reconciled(old(store.perms), store.perms, m, items)
    ensures store.grants.Keys == old(store.grants).Keys
    ensures forall g :: g in store.grants ==>
      store.grants[g] == old(store.grants)[g].(granted := old(store.grants)[g].granted - Removed(old(store.perms), m, items))
    ensures store.modules == old(store.modules) && store.roles == old(store.roles)
  {
    var submitted := Submitted(items);
    var stale := set p | p in store.perms && store.perms[p].moduleId == m && store.perms[p].codename !in submitted;
    store.DeletePermissions(stale);
    ReconcileStart(old(store.perms), store.perms, m, items, stale);
    ghost var pruned := store.grants;
    var i := 0;
    while i < |items|
      invariant 0 <= i <= |items|
      invariant store.Valid()
      invariant store.modules == old(store.modules) && store.roles == old(store.roles) && store.grants == pruned
      invariant ReconciledUpTo(old(store.perms), store.perms, m, items, i)
    {
      var d := Wanted(m, items, i);
      ghost var prev := store.perms;
      var id := store.UpdateOrCreate(m, d.codename, d.title, d.category, d.order);
      ReconcileStep(old(store.perms), prev, store.perms, m, items, i, id);
      i := i + 1;
    }
  }

  /** After the deletions, nothing is upserted yet and the reconciliation invariant holds. */
  lemma ReconcileStart(before: map<nat, PermissionDef>, after: map<nat, PermissionDef>, m: nat,
                       items: seq<PermInput>, stale: set<nat>)
    requires stale == Removed(before, m, items)
    requires after == map p | p in before && p !in stale :: before[p]
    ensures ReconciledUpTo(before, after, m, items, 0)
  {
  }

  /** Upserting entry `i` makes it the last word on its codename and keeps every other definition. */
  lemma ReconcileStep(before: map<nat, PermissionDef>, prev: map<nat, PermissionDef>, cur: map<nat, PermissionDef>,
                      m: nat, items: seq<PermInput>, i: nat, id: nat)
    requires i < |items|
    requires ReconciledUpTo(before, prev, m, items, i)
    requires id in cur && cur[id] == Wanted(m, items, i)
    requires id in prev ==> prev[id].moduleId == m && prev[id].codename == items[i].codename
    requires forall p :: p in cur && p != id ==> p in prev && cur[p] == prev[p]
    requires prev.Keys <= cur.Keys
    ensures ReconciledUpTo(before, cur, m, items, i + 1)
  {
    forall j | 0 <= j < i + 1
      ensures Wanted(m, items, LastBefore(items, i + 1, items[j].codename)) in cur.Values
    {
      if items[j].codename == items[i].codename {
        assert cur[id] == Wanted(m, items, LastBefore(items, i + 1, items[j].codename));
      } else {
        assert LastWins(prev, m, items, i);
        assert Wanted(m, items, LastBefore(items, i, items[j].codename)) in prev.Values;
        var p :| p in prev && prev[p] == Wanted(m, items, LastBefore(items, i, items[j].codename));
        assert p != id;
        assert cur[p] == Wanted(m, items, LastBefore(items, i + 1, items[j].codename));
      }
    }
    assert items[i].codename in Submitted(items);
  }

  /**
   * `ModuleUpdateWithPermissionsView.put`: 404 for an unknown module, 400
   * for an invalid patch; otherwise the patch is saved and, when a list was
   * submitted, the module's definitions are reconciled with it.
   */
  method UpdateWithPermissions(store: Store, id: nat, patch: ModulePatch, items: Option<seq<PermInput>>)
    returns (r: Result<nat, ViewError>)
    requires store.Valid()
    modifies store
    ensures store.Valid()
    ensures id !in old(store.modules) ==> r == Err(NoSuchModule)
    ensures id in old(store.modules) && !PatchValid(old(store.modules), patch) ==> r == Err(BadRequest)
    ensures r.Ok? <==> id in old(store.modules) && PatchValid(old(store.modules), patch)
    ensures r.Err? ==> store.modules == old(store.modules) && store.perms == old(store.perms) &&
                       store.grants == old(store.grants)
    ensures r.Ok? ==> r.value == id && store.modules == old(store.modules)[id := ApplyPatch(old(store.modules)[id], patch)]
    ensures r.Ok? && items.None? ==> store.perms == old(store.perms) && store.grants == old(store.grants)
    ensures r.Ok? && items.Some? ==>
      && Reconciled(old(store.perms), store.perms, id, items.value)
      && store.grants.Keys == old(store.grants).Keys
      && forall g :: g in store.grants ==>
           store.grants[g] == old(store.grants)[g].(granted := old(store.grants)[g].granted -
                                                             Removed(old(store.perms), id, items.value))
    ensures store.roles == old(store.roles)
  {
    if id !in store.modules {
      return Err(NoSuchModule);
    }
    var upd := store.UpdateModule(id, ApplyPatch(store.modules[id], patch));
    if upd.Err? {
      return Err(BadRequest);
    }
    if items.Some? {
      ReconcilePermissions(store, id, items.value);
    }
    return Ok(id);
  }
}
