/**
 * How the tables are shaped into responses: a module with its active
 * children, ordered by `order`, recursively; the same tree with each module's
 * permission definitions attached; and a grant row's granted definitions as a
 * list of codenames. Related definitions come back in the model's default
 * ordering: by category, then order, then codename.
 */
module Serializers {
  import opened Common
  import opened Models

  // ---------------------------------------------------------------------
  // The default ordering of permission definitions
  // ---------------------------------------------------------------------

  /** `a` sorts strictly before `b` by (category, order, codename). */
  predicate DefBefore(a: PermissionDef, b: PermissionDef) {
    || StrLt(a.category, b.category)
    || (a.category == b.category && a.order < b.order)
    || (a.category == b.category && a.order == b.order && StrLt(a.codename, b.codename))
  }

  lemma DefBeforeIrreflexive(a: PermissionDef)
    ensures !DefBefore(a, a)
  {
    StrLtIrreflexive(a.category);
    StrLtIrreflexive(a.codename);
  }

  lemma DefBeforeTransitive(a: PermissionDef, b: PermissionDef, c: PermissionDef)
    requires DefBefore(a, b) && DefBefore(b, c)
    ensures DefBefore(a, c)
  {
    if StrLt(a.category, b.category) && StrLt(b.category, c.category) {
      StrLtTransitive(a.category, b.category, c.category);
    } else if a.category == b.category && b.category == c.category && a.order == b.order && b.order == c.order {
      StrLtTransitive(a.codename, b.codename, c.codename);
    }
  }

  /** Definitions with different codenames are never tied. */
  lemma DefBeforeTotal(a: PermissionDef, b: PermissionDef)
    requires a.codename != b.codename
    ensures DefBefore(a, b) || DefBefore(b, a)
  {
    if a.category != b.category {
      StrLtTotal(a.category, b.category);
    } else if a.order == b.order {
      StrLtTotal(a.codename, b.codename);
    }
  }

  /** A definition row as `ModulePermissionSerializer` shows it: its id and its fields. */
  datatype PermRow = PermRow(id: nat, definition: PermissionDef)

  /** No row is followed by one that sorts strictly before it. */
  predicate RowsOrdered(r: seq<PermRow>) {
    forall i, j :: 0 <= i < j < |r| ==> !DefBefore(r[j].definition, r[i].definition)
  }

  /** Nothing in `s` sorts strictly before `m`. */
  ghost predicate IsLeastRow(m: PermRow, s: set<PermRow>) {
    m in s && forall x :: x in s ==> !DefBefore(x.definition, m.definition)
  }

  /** A non-empty finite set of rows has a row that nothing sorts before. */
  lemma {:induction false} LeastRowExists(s: set<PermRow>)
    requires s != {}
    ensures exists m :: IsLeastRow(m, s)
    decreases |s|
  {
    var y :| y in s;
    if s == {y} {
      DefBeforeIrreflexive(y.definition);
      assert IsLeastRow(y, s);
    } else {
      LeastRowExists(s - {y});
      var m :| IsLeastRow(m, s - {y});
      var least := AddRow(m, y, s - {y});
      assert s - {y} + {y} == s;
    }
  }

  /** Adding `y` to a set whose least row is `m` gives a set whose least row is one of the two. */
  lemma AddRow(m: PermRow, y: PermRow, s: set<PermRow>) returns (least: PermRow)
    requires IsLeastRow(m, s)
    ensures IsLeastRow(least, s + {y})
  {
    if DefBefore(y.definition, m.definition) {
      forall x | x in s + {y} ensures !DefBefore(x.definition, y.definition) {
        if x == y {
          DefBeforeIrreflexive(y.definition);
        } else if DefBefore(x.definition, y.definition) {
          DefBeforeTransitive(x.definition, y.definition, m.definition);
        }
      }
      least := y;
    } else {
      DefBeforeIrreflexive(m.definition);
      least := m;
    }
  }

  /** The rows of `s` in the default ordering (ties in an order the caller cannot rely on). */
  ghost function SortRows(s: set<PermRow>): (r: seq<PermRow>)
    ensures NoDup(r) && Elems(r) == s && |r| == |s|
    ensures RowsOrdered(r)
    decreases |s|
  {
    if s == {} then []
    else
      LeastRowExists(s);
      var m :| IsLeastRow(m, s);
      var t := SortRows(s - {m});
      PrependLeastRow(m, t, s);
      [m] + t
  }

  lemma PrependLeastRow(m: PermRow, t: seq<PermRow>, s: set<PermRow>)
    requires m in s && forall x :: x in s ==> !DefBefore(x.definition, m.definition)
    requires NoDup(t) && Elems(t) == s - {m} && |t| == |s - {m}| && RowsOrdered(t)
    ensures NoDup([m] + t) && Elems([m] + t) == s && |[m] + t| == |s| && RowsOrdered([m] + t)
  {
    assert Elems([m] + t) == {m} + Elems(t);
    forall k | 0 <= k < |t| ensures t[k] in s && t[k] != m {
      assert t[k] in Elems(t);
    }
    PrependOrdered(m, t);
  }

  lemma PrependOrdered(m: PermRow, t: seq<PermRow>)
    requires forall k :: 0 <= k < |t| ==> t[k] != m && !DefBefore(t[k].definition, m.definition)
    requires NoDup(t) && RowsOrdered(t)
    ensures NoDup([m] + t) && RowsOrdered([m] + t)
  {
    var r := [m] + t;
    forall i, j | 0 <= i < j < |r| ensures r[i] != r[j] && !DefBefore(r[j].definition, r[i].definition) {
      assert r[j] == t[j - 1];
      if i > 0 {
        assert r[i] == t[i - 1];
      }
    }
  }

  /** The rows of the definitions `ids`. */
  function RowsOf(perms: map<nat, PermissionDef>, ids: set<nat>): set<PermRow> {
    set p | p in ids && p in perms :: PermRow(p, perms[p])
  }

  /** Module `m`'s definitions, as `available_permissions` lists them. */
  ghost function AvailablePermissions(perms: map<nat, PermissionDef>, m: nat): (r: seq<PermRow>)
    ensures forall i :: 0 <= i < |r| ==> r[i].id in perms && perms[r[i].id] == r[i].definition &&
                                         r[i].definition.moduleId == m
    ensures forall p :: p in perms && perms[p].moduleId == m ==> PermRow(p, perms[p]) in r
    ensures NoDup(r) && RowsOrdered(r)
  {
    var rows := RowsOf(perms, set p | p in perms && perms[p].moduleId == m);
    var r := SortRows(rows);
    forall i | 0 <= i < |r|
      ensures r[i].id in perms && perms[r[i].id] == r[i].definition && r[i].definition.moduleId == m
    {
      assert r[i] in Elems(r);
    }
    forall p | p in perms && perms[p].moduleId == m ensures PermRow(p, perms[p]) in r {
      assert PermRow(p, perms[p]) in rows;
      assert PermRow(p, perms[p]) in Elems(r);
    }
    r
  }

  /** Within one module codenames are unique, so the listing is strictly ordered. */
  lemma AvailableStrictlyOrdered(perms: map<nat, PermissionDef>, m: nat)
    requires CodenameUnique(perms)
    ensures var r := AvailablePermissions(perms, m);
            forall i, j :: 0 <= i < j < |r| ==> DefBefore(r[i].definition, r[j].definition)
  {
    var r := AvailablePermissions(perms, m);
    forall i, j | 0 <= i < j < |r| ensures DefBefore(r[i].definition, r[j].definition) {
      assert r[i] != r[j];
      assert r[i].id != r[j].id;
      DefBeforeTotal(r[i].definition, r[j].definition);
    }
  }

  /** The codenames of `rows`, in the same order. */
  function CodenameList(rows: seq<PermRow>): (r: seq<string>)
    ensures |r| == |rows| && forall i :: 0 <= i < |r| ==> r[i] == rows[i].definition.codename
  {
    seq(|rows|, i requires 0 <= i < |rows| => rows[i].definition.codename)
  }

  /** `get_granted_permissions`: the codenames of a grant's definitions in the default ordering. */
  ghost function GrantedCodenames(perms: map<nat, PermissionDef>, granted: set<nat>): (r: seq<string>)
    ensures Elems(r) == CodenamesOf(granted, perms)
  {
    var rows := SortRows(RowsOf(perms, granted));
    GrantedRows(perms, granted, rows);
    CodenameList(rows)
  }

  lemma GrantedRows(perms: map<nat, PermissionDef>, granted: set<nat>, rows: seq<PermRow>)
    requires Elems(rows) == RowsOf(perms, granted)
    ensures Elems(CodenameList(rows)) == CodenamesOf(granted, perms)
  {
    var r := CodenameList(rows);
    forall c | c in CodenamesOf(granted, perms) ensures c in Elems(r) {
      var p :| p in granted && p in perms && perms[p].codename == c;
      assert PermRow(p, perms[p]) in Elems(rows);
      var i :| 0 <= i < |rows| && rows[i] == PermRow(p, perms[p]);
      assert r[i] == c;
    }
    forall c | c in Elems(r) ensures c in CodenamesOf(granted, perms) {
      var i :| 0 <= i < |r| && r[i] == c;
      assert rows[i] in Elems(rows);
    }
  }

  /** The listing follows the default ordering of the granted definitions, one entry per definition. */
  lemma GrantedInDefaultOrder(perms: map<nat, PermissionDef>, granted: set<nat>)
    ensures var r := GrantedCodenames(perms, granted);
            exists rows: seq<PermRow> :: NoDup(rows) && Elems(rows) == RowsOf(perms, granted) && RowsOrdered(rows) &&
                                         r == CodenameList(rows)
  {
    var rows := SortRows(RowsOf(perms, granted));
    assert GrantedCodenames(perms, granted) == CodenameList(rows);
  }

  // ---------------------------------------------------------------------
  // Module trees
  // ---------------------------------------------------------------------

  /** `ModuleSerializer`'s output for one module. */
  datatype ModuleTree = ModuleTree(id: nat, name: string, icon: Option<string>, path: string, parent: Option<nat>,
                                   order: int, isActive: bool, children: seq<ModuleTree>)

  /** `ModuleWithPermissionsSerializer`'s output: the same, with the module's definitions. */
  datatype ModuleWithPerms = ModuleWithPerms(id: nat, name: string, icon: Option<string>, path: string,
                                             parent: Option<nat>, order: int, isActive: bool,
                                             available: seq<PermRow>, children: seq<ModuleWithPerms>)

  /** The active modules whose parent is `id`. */
  function ActiveChildren(modules: map<nat, Module>, id: nat): set<nat> {
    set k | k in modules && modules[k].parent == Some(id) && modules[k].isActive
  }

  /**
   * `kids` is what `obj.children.filter(is_active=True).order_by('order')`
   * returns for module `id`: each active child once, in non-decreasing
   * `order`.
   */
  predicate ListsChildren(modules: map<nat, Module>, id: nat, kids: seq<nat>) {
    && (forall i :: 0 <= i < |kids| ==> kids[i] in modules)
    && NoDup(kids)
    && Elems(kids) == ActiveChildren(modules, id)
    && (forall i, j :: 0 <= i < j < |kids| ==> modules[kids[i]].order <= modules[kids[j]].order)
  }

  /**
   * The children query's result for every module. Ties in `order` come back
   * in whatever order the database returns them, so the listing is an input
   * of the model rather than something it computes.
   */
  ghost predicate ChildListing(modules: map<nat, Module>, listing: map<nat, seq<nat>>) {
    forall id :: id in modules ==> id in listing && ListsChildren(modules, id, listing[id])
  }

  /** The sort key for children: their `order`. */
  function ChildOrder(modules: map<nat, Module>): nat -> int {
    (k: nat) => if k in modules then modules[k].order else 0
  }

  /** The query can always be answered: every module table has a children listing. */
  lemma ListingExists(modules: map<nat, Module>)
    ensures exists listing :: ChildListing(modules, listing)
  {
    var listing := map id | id in modules :: SortByKey(SeqOfSet(ActiveChildren(modules, id)), ChildOrder(modules));
    forall id | id in modules ensures ListsChildren(modules, id, listing[id]) {
      SortedChildrenListed(modules, id);
    }
    assert ChildListing(modules, listing);
  }

  /** Sorting the active children by `order` answers the query for one module. */
  lemma SortedChildrenListed(modules: map<nat, Module>, id: nat)
    ensures ListsChildren(modules, id, SortByKey(SeqOfSet(ActiveChildren(modules, id)), ChildOrder(modules)))
  {
    var listed := SeqOfSet(ActiveChildren(modules, id));
    var r := SortByKey(listed, ChildOrder(modules));
    NoDupPermutation(listed, r);
    SameElems(listed, r);
    forall i | 0 <= i < |r| ensures r[i] in modules {
      assert r[i] in Elems(r);
    }
    forall i, j | 0 <= i < j < |r| ensures modules[r[i]].order <= modules[r[j]].order {
      assert ChildOrder(modules)(r[i]) <= ChildOrder(modules)(r[j]);
    }
  }

  /**
   * The serialized tree of module `id`, expanded `depth` levels down (the
   * source recurses without a bound; `depth` stands for the height of the
   * tree below `id`).
   */
  function Tree(modules: map<nat, Module>, listing: map<nat, seq<nat>>, id: nat, depth: nat): ModuleTree
    requires ChildListing(modules, listing) && id in modules
    decreases depth
  {
    var m := modules[id];
    var kids := if depth == 0 then [] else listing[id];
    ModuleTree(id, m.name, m.icon, m.path, m.parent, m.order, m.isActive,
               seq(|kids|, i requires 0 <= i < |kids| => Tree(modules, listing, kids[i], depth - 1)))
  }

  /** The same tree with each module's definitions attached. */
  ghost function TreeWithPerms(modules: map<nat, Module>, listing: map<nat, seq<nat>>, perms: map<nat, PermissionDef>,
                               id: nat, depth: nat): ModuleWithPerms
    requires ChildListing(modules, listing) && id in modules
    decreases depth
  {
    var m := modules[id];
    var kids := if depth == 0 then [] else listing[id];
    ModuleWithPerms(id, m.name, m.icon, m.path, m.parent, m.order, m.isActive, AvailablePermissions(perms, id),
                    seq(|kids|, i requires 0 <= i < |kids| => TreeWithPerms(modules, listing, perms, kids[i], depth - 1)))
  }

  function TreeIds(ts: seq<ModuleTree>): seq<nat> {
    seq(|ts|, i requires 0 <= i < |ts| => ts[i].id)
  }

  /**
   * At every node of `t`, `depth` levels down: the node shows its module's
   * fields, and its children are exactly the module's active children, each
   * once, in non-decreasing `order`, each shaped the same way.
   */
  ghost predicate Shaped(t: ModuleTree, modules: map<nat, Module>, depth: nat)
    decreases depth
  {
    && t.id in modules
    && t.name == modules[t.id].name && t.icon == modules[t.id].icon && t.path == modules[t.id].path
    && t.parent == modules[t.id].parent && t.order == modules[t.id].order && t.isActive == modules[t.id].isActive
    && (depth == 0 ==> t.children == [])
    && (depth > 0 ==>
          && NoDup(TreeIds(t.children))
          && Elems(TreeIds(t.children)) == ActiveChildren(modules, t.id)
          && (forall i, j :: 0 <= i < j < |t.children| ==> t.children[i].order <= t.children[j].order)
          && (forall i :: 0 <= i < |t.children| ==> Shaped(t.children[i], modules, depth - 1)))
  }

  /** The children of a tree node are the trees of the module's listed children. */
  lemma TreeChildren(modules: map<nat, Module>, listing: map<nat, seq<nat>>, id: nat, depth: nat)
    requires ChildListing(modules, listing) && id in modules && depth > 0
    ensures var t := Tree(modules, listing, id, depth);
            && |t.children| == |listing[id]|
            && (forall i :: 0 <= i < |t.children| ==> t.children[i] == Tree(modules, listing, listing[id][i], depth - 1))
            && TreeIds(t.children) == listing[id]
  {
    var t := Tree(modules, listing, id, depth);
    var kids := listing[id];
    assert |t.children| == |kids|;
    forall i | 0 <= i < |kids| ensures t.children[i] == Tree(modules, listing, kids[i], depth - 1) {
    }
    assert TreeIds(t.children) == kids;
  }

  /** Every module's tree, `depth` levels down, is shaped. */
  ghost predicate AllShaped(modules: map<nat, Module>, listing: map<nat, seq<nat>>, depth: nat)
    requires ChildListing(modules, listing)
  {
    forall id :: id in modules ==> Shaped(Tree(modules, listing, id, depth), modules, depth)
  }

  /** The serializer's filter and order hold at every depth. */
  lemma {:induction false} TreeShaped(modules: map<nat, Module>, listing: map<nat, seq<nat>>, depth: nat)
    requires ChildListing(modules, listing)
    ensures AllShaped(modules, listing, depth)
    decreases depth
  {
    if depth == 0 {
      LevelShaped(modules, listing, depth);
    } else {
      var below: nat := depth - 1;
      TreeShaped(modules, listing, below);
      NextLevelShaped(modules, listing, below, depth);
    }
  }

  lemma NextLevelShaped(modules: map<nat, Module>, listing: map<nat, seq<nat>>, below: nat, depth: nat)
    requires ChildListing(modules, listing)
    requires AllShaped(modules, listing, below) && depth == below + 1
    ensures AllShaped(modules, listing, depth)
  {
    LevelShaped(modules, listing, depth);
  }

  lemma LevelShaped(modules: map<nat, Module>, listing: map<nat, seq<nat>>, depth: nat)
    requires ChildListing(modules, listing)
    requires depth > 0 ==> AllShaped(modules, listing, depth - 1)
    ensures AllShaped(modules, listing, depth)
  {
    forall id | id in modules ensures Shaped(Tree(modules, listing, id, depth), modules, depth) {
      NodeShaped(modules, listing, id, depth);
    }
  }

  /** One level of `TreeShaped`: a node is shaped when every tree one level lower is. */
  lemma NodeShaped(modules: map<nat, Module>, listing: map<nat, seq<nat>>, id: nat, depth: nat)
    requires ChildListing(modules, listing) && id in modules
    requires depth > 0 ==> AllShaped(modules, listing, depth - 1)
    ensures Shaped(Tree(modules, listing, id, depth), modules, depth)
  {
    var t := Tree(modules, listing, id, depth);
    if depth > 0 {
      var kids := listing[id];
      TreeChildren(modules, listing, id, depth);
      assert ListsChildren(modules, id, kids);
      forall i, j | 0 <= i < j < |t.children| ensures t.children[i].order <= t.children[j].order {
        assert t.children[i] == Tree(modules, listing, kids[i], depth - 1);
        assert t.children[j] == Tree(modules, listing, kids[j], depth - 1);
      }
      forall i | 0 <= i < |t.children| ensures Shaped(t.children[i], modules, depth - 1) {
        assert t.children[i] == Tree(modules, listing, kids[i], depth - 1);
      }
    }
  }

  /** Every module below the root of a serialized tree is active and sits under its parent. */
  lemma DescendantsActive(modules: map<nat, Module>, t: ModuleTree, depth: nat, i: nat)
    requires Shaped(t, modules, depth) && i < |t.children|
    ensures t.children[i].isActive && t.children[i].parent == Some(t.id)
  {
    assert TreeIds(t.children)[i] == t.children[i].id;
    assert t.children[i].id in ActiveChildren(modules, t.id);
  }

  /** Drops the attached definitions. */
  function Strip(w: ModuleWithPerms): ModuleTree
    decreases w
  {
    ModuleTree(w.id, w.name, w.icon, w.path, w.parent, w.order, w.isActive,
               seq(|w.children|, i requires 0 <= i < |w.children| => Strip(w.children[i])))
  }

  /** The children of a with-permissions node are the trees of the module's listed children. */
  lemma TreeWithPermsChildren(modules: map<nat, Module>, listing: map<nat, seq<nat>>, perms: map<nat, PermissionDef>,
                              id: nat, depth: nat)
    requires ChildListing(modules, listing) && id in modules && depth > 0
    ensures var w := TreeWithPerms(modules, listing, perms, id, depth);
            && |w.children| == |listing[id]|
            && (forall i :: 0 <= i < |w.children| ==>
                  w.children[i] == TreeWithPerms(modules, listing, perms, listing[id][i], depth - 1))
  {
    var w := TreeWithPerms(modules, listing, perms, id, depth);
    var kids := listing[id];
    assert |w.children| == |kids|;
    forall i | 0 <= i < |kids| ensures w.children[i] == TreeWithPerms(modules, listing, perms, kids[i], depth - 1) {
    }
  }

  /** Every module's with-permissions tree, stripped, is its plain tree. */
  ghost predicate AllSame(modules: map<nat, Module>, listing: map<nat, seq<nat>>, perms: map<nat, PermissionDef>,
                          depth: nat)
    requires ChildListing(modules, listing)
  {
    forall id :: id in modules ==>
      Strip(TreeWithPerms(modules, listing, perms, id, depth)) == Tree(modules, listing, id, depth)
  }

  /** The with-permissions variant filters and orders children exactly as the plain one. */
  lemma {:induction false} SameShape(modules: map<nat, Module>, listing: map<nat, seq<nat>>,
                                     perms: map<nat, PermissionDef>, depth: nat)
    requires ChildListing(modules, listing)
    ensures AllSame(modules, listing, perms, depth)
    decreases depth
  {
    if depth == 0 {
      LevelSame(modules, listing, perms, depth);
    } else {
      var below: nat := depth - 1;
      SameShape(modules, listing, perms, below);
      NextLevelSame(modules, listing, perms, below, depth);
    }
  }

  lemma NextLevelSame(modules: map<nat, Module>, listing: map<nat, seq<nat>>, perms: map<nat, PermissionDef>,
                      below: nat, depth: nat)
    requires ChildListing(modules, listing)
    requires AllSame(modules, listing, perms, below) && depth == below + 1
    ensures AllSame(modules, listing, perms, depth)
  {
    LevelSame(modules, listing, perms, depth);
  }

  lemma LevelSame(modules: map<nat, Module>, listing: map<nat, seq<nat>>, perms: map<nat, PermissionDef>, depth: nat)
    requires ChildListing(modules, listing)
    requires depth > 0 ==> AllSame(modules, listing, perms, depth - 1)
    ensures AllSame(modules, listing, perms, depth)
  {
    forall id | id in modules
      ensures Strip(TreeWithPerms(modules, listing, perms, id, depth)) == Tree(modules, listing, id, depth)
    {
      NodeSame(modules, listing, perms, id, depth);
    }
  }

  lemma NodeSame(modules: map<nat, Module>, listing: map<nat, seq<nat>>, perms: map<nat, PermissionDef>,
                 id: nat, depth: nat)
    requires ChildListing(modules, listing) && id in modules
    requires depth > 0 ==> AllSame(modules, listing, perms, depth - 1)
    ensures Strip(TreeWithPerms(modules, listing, perms, id, depth)) == Tree(modules, listing, id, depth)
  {
    var w := TreeWithPerms(modules, listing, perms, id, depth);
    var t := Tree(modules, listing, id, depth);
    var s := Strip(w);
    if depth > 0 {
      var kids := listing[id];
      TreeChildren(modules, listing, id, depth);
      TreeWithPermsChildren(modules, listing, perms, id, depth);
      assert |s.children| == |t.children|;
      forall i | 0 <= i < |t.children| ensures s.children[i] == t.children[i] {
        assert s.children[i] == Strip(w.children[i]);
        assert w.children[i] == TreeWithPerms(modules, listing, perms, kids[i], depth - 1);
        assert t.children[i] == Tree(modules, listing, kids[i], depth - 1);
      }
    }
  }

  /** Every child of a with-permissions node carries its own module's definitions. */
  lemma AvailableAtEveryNode(modules: map<nat, Module>, listing: map<nat, seq<nat>>, perms: map<nat, PermissionDef>,
                             id: nat, depth: nat, i: nat)
    requires ChildListing(modules, listing) && id in modules && depth > 0
    requires i < |TreeWithPerms(modules, listing, perms, id, depth).children|
    ensures var c := TreeWithPerms(modules, listing, perms, id, depth).children[i];
            c.available == AvailablePermissions(perms, c.id) && c.parent == Some(id)
  {
    var kids := listing[id];
    TreeWithPermsChildren(modules, listing, perms, id, depth);
    assert ListsChildren(modules, id, kids);
    assert kids[i] in Elems(kids);
    var c := TreeWithPerms(modules, listing, perms, id, depth).children[i];
    assert c == TreeWithPerms(modules, listing, perms, kids[i], depth - 1);
  }
}
