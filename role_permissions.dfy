/**
 * The role-permission editor: the per-module lists of granted codenames the
 * page holds, the edits its buttons make to them (one codename, every
 * codename, one category), which module an edit reaches, the badges computed
 * from a list, the grouping of a module's definitions by category, the
 * payload sent on save and the totals in the footer.
 */
module RolePermissions {
  import opened Common

  // ---------------------------------------------------------------------
  // Data
  // ---------------------------------------------------------------------

  /** One permission a module defines, as the server lists it. */
  datatype AvailablePermission = AvailablePermission(id: nat, codename: string, title: string, category: string)

  /**
   * One module as the page holds it: what it defines, what the role is
   * granted on it, and its children (an absent `children` is the empty list).
   */
  datatype ModulePermission = ModulePermission(moduleId: int, moduleName: string,
                                               available: seq<AvailablePermission>,
                                               granted: seq<string>,
                                               children: seq<ModulePermission>)

  /** One line of the save request. */
  datatype UpdatePermissionData = UpdatePermissionData(moduleId: int, granted: seq<string>)

  /** The codenames of a module's definitions, in order. */
  function Codenames(available: seq<AvailablePermission>): seq<string> {
    seq(|available|, i requires 0 <= i < |available| => available[i].codename)
  }

  // ---------------------------------------------------------------------
  // Edits to one granted list
  // ---------------------------------------------------------------------

  /** `[...new Set(s)]`: the first occurrence of every element, in order. */
  function Dedup<T(==)>(s: seq<T>): (r: seq<T>)
    ensures NoDup(r) && Elems(r) == Elems(s)
    decreases |s|
  {
    if s == [] then []
    else
      var init := s[..|s| - 1];
      var last := s[|s| - 1];
      assert s == init + [last];
      var r := Dedup(init);
      assert Elems(s) == Elems(init) + {last};
      if last in r then r
      else
        assert Elems(r + [last]) == Elems(r) + {last};
        r + [last]
  }

  /** A list without duplicates passes through unchanged. */
  lemma {:induction false} DedupOfNoDup<T>(s: seq<T>)
    requires NoDup(s)
    ensures Dedup(s) == s
    decreases |s|
  {
    if s != [] {
      DedupOfNoDup(s[..|s| - 1]);
    }
  }

  /** Appending elements already present changes nothing. */
  lemma {:induction false} DedupCovered<T>(a: seq<T>, b: seq<T>)
    requires NoDup(a) && Elems(b) <= Elems(a)
    ensures Dedup(a + b) == a
    decreases |b|
  {
    if b == [] {
      assert a + b == a;
      DedupOfNoDup(a);
    } else {
      var init := b[..|b| - 1];
      assert (a + b)[..|a + b| - 1] == a + init;
      assert b[|b| - 1] in Elems(a);
      DedupCovered(a, init);
    }
  }

  /** Whatever is appended, a duplicate-free list stays at the front, in order. */
  lemma {:induction false} DedupKeepsPrefix<T>(a: seq<T>, b: seq<T>)
    requires NoDup(a)
    ensures |a| <= |Dedup(a + b)| && Dedup(a + b)[..|a|] == a
    decreases |b|
  {
    if b == [] {
      assert a + b == a;
      DedupOfNoDup(a);
    } else {
      var init := b[..|b| - 1];
      assert (a + b)[..|a + b| - 1] == a + init;
      DedupKeepsPrefix(a, init);
    }
  }

  /** `s.filter((c) => !xs.includes(c))`. */
  function Subtract<T(==,!new)>(s: seq<T>, xs: seq<T>): (r: seq<T>)
    ensures forall y :: y in r <==> y in s && y !in xs
    ensures NoDup(s) ==> NoDup(r)
    decreases |s|
  {
    if s == [] then []
    else
      var init := s[..|s| - 1];
      var last := s[|s| - 1];
      assert s == init + [last];
      var r := Subtract(init, xs);
      if last in xs then r else r + [last]
  }

  /** Filtering keeps the order: it distributes over concatenation. */
  lemma {:induction false} SubtractAppend<T(!new)>(a: seq<T>, b: seq<T>, xs: seq<T>)
    ensures Subtract(a + b, xs) == Subtract(a, xs) + Subtract(b, xs)
    decreases |b|
  {
    if b == [] {
      assert a + b == a;
    } else {
      var init := b[..|b| - 1];
      var last := b[|b| - 1];
      assert b == init + [last];
      assert a + b == (a + init) + [last];
      SubtractAppend(a, init, xs);
    }
  }

  /** Subtracting from a list that holds none of the elements changes nothing. */
  lemma {:induction false} SubtractNothing<T(!new)>(s: seq<T>, xs: seq<T>)
    requires forall y :: y in s ==> y !in xs
    ensures Subtract(s, xs) == s
    decreases |s|
  {
    if s != [] {
      var init := s[..|s| - 1];
      assert s == init + [s[|s| - 1]];
      SubtractNothing(init, xs);
    }
  }

  /** A category button's edit: union keeping first occurrences, or removal. */
  function UpdateGranted(current: seq<string>, categoryCodenames: seq<string>, selectAll: bool): seq<string> {
    if selectAll then Dedup(current + categoryCodenames) else Subtract(current, categoryCodenames)
  }

  /** Selecting a category adds exactly its codenames, keeps what was there in front, and adds no duplicate. */
  lemma CategorySelect(current: seq<string>, categoryCodenames: seq<string>)
    ensures Elems(UpdateGranted(current, categoryCodenames, true)) == Elems(current) + Elems(categoryCodenames)
    ensures NoDup(UpdateGranted(current, categoryCodenames, true))
    ensures NoDup(current) ==> |current| <= |UpdateGranted(current, categoryCodenames, true)| &&
                               UpdateGranted(current, categoryCodenames, true)[..|current|] == current
  {
    assert Elems(current + categoryCodenames) == Elems(current) + Elems(categoryCodenames);
    if NoDup(current) {
      DedupKeepsPrefix(current, categoryCodenames);
    }
  }

  /** Clearing a category removes exactly its codenames and leaves every other one. */
  lemma CategoryClear(current: seq<string>, categoryCodenames: seq<string>)
    ensures Elems(UpdateGranted(current, categoryCodenames, false)) == Elems(current) - Elems(categoryCodenames)
    ensures NoDup(current) ==> NoDup(UpdateGranted(current, categoryCodenames, false))
  {
  }

  /** Pressing a category edit a second time with the same direction changes nothing. */
  lemma CategoryIdempotent(current: seq<string>, categoryCodenames: seq<string>, selectAll: bool)
    ensures UpdateGranted(UpdateGranted(current, categoryCodenames, selectAll), categoryCodenames, selectAll) ==
            UpdateGranted(current, categoryCodenames, selectAll)
  {
    var once := UpdateGranted(current, categoryCodenames, selectAll);
    if selectAll {
      CategorySelect(current, categoryCodenames);
      DedupCovered(once, categoryCodenames);
    } else {
      SubtractNothing(once, categoryCodenames);
    }
  }

  /** The edits a button makes to one granted list. */
  datatype Edit =
    | FlipOne(codename: string)                           // a permission pill
    | Assign(codenames: seq<string>)                      // the select-all button
    | Category(codenames: seq<string>, selectAll: bool)   // a category button

  function Applied(e: Edit, current: seq<string>): seq<string> {
    match e
    case FlipOne(c) => Toggle(current, c)
    case Assign(cs) => cs
    case Category(cs, selectAll) => UpdateGranted(current, cs, selectAll)
  }

  /** The select-all button's edit: every codename the module defines, or none. */
  function SelectAllEdit(available: seq<AvailablePermission>, selectAll: bool): Edit {
    Assign(if selectAll then Codenames(available) else [])
  }

  /** A category button's edit, with the codenames of the module's definitions in that category. */
  function CategoryEdit(available: seq<AvailablePermission>, category: string, selectAll: bool): Edit {
    Category(Codenames(InCategory(available, category)), selectAll)
  }

  // ---------------------------------------------------------------------
  // Which module an edit reaches
  // ---------------------------------------------------------------------

  /** A top-level module by id, or a child by its parent's id and its own. */
  datatype Address = TopLevel(moduleId: int) | Nested(parentId: int, moduleId: int)

  /**
   * The handlers' test `isChild && parentId`: a missing parent id and the
   * parent id 0 are both false, and then the edit looks for `moduleId` among
   * the top-level modules even when `isChild` is set.
   */
  function AddressOf(moduleId: int, isChild: bool, parentId: Option<int>): (r: Address)
    ensures r.moduleId == moduleId
    ensures r.Nested? <==> isChild && parentId.Some? && parentId.value != 0
    ensures r.Nested? ==> r.parentId == parentId.value
  {
    if isChild && parentId.Some? && parentId.value != 0 then Nested(parentId.value, moduleId) else TopLevel(moduleId)
  }

  predicate TopAddressed(a: Address, perm: ModulePermission) {
    a.TopLevel? && perm.moduleId == a.moduleId
  }

  predicate ChildAddressed(a: Address, perm: ModulePermission, child: ModulePermission) {
    a.Nested? && perm.moduleId == a.parentId && child.moduleId == a.moduleId
  }

  /** The edit applied to one top-level entry of the page's list. */
  function UpdateOne(perm: ModulePermission, a: Address, e: Edit): ModulePermission {
    match a
    case Nested(parentId, moduleId) =>
      if perm.moduleId == parentId then
        perm.(children := seq(|perm.children|, j requires 0 <= j < |perm.children| =>
                                 if perm.children[j].moduleId == moduleId
                                 then perm.children[j].(granted := Applied(e, perm.children[j].granted))
                                 else perm.children[j]))
      else perm
    case TopLevel(moduleId) =>
      if perm.moduleId == moduleId then perm.(granted := Applied(e, perm.granted)) else perm
  }

  /** The edit applied to the page's list, entry by entry. */
  function Update(perms: seq<ModulePermission>, a: Address, e: Edit): seq<ModulePermission> {
    seq(|perms|, i requires 0 <= i < |perms| => UpdateOne(perms[i], a, e))
  }

  /** `handlePermissionToggle`. */
  function TogglePermission(perms: seq<ModulePermission>, moduleId: int, codename: string, isChild: bool,
                            parentId: Option<int>): seq<ModulePermission> {
    Update(perms, AddressOf(moduleId, isChild, parentId), FlipOne(codename))
  }

  /** `handleSelectAll`. */
  function SelectAll(perms: seq<ModulePermission>, moduleId: int, available: seq<AvailablePermission>,
                     selectAll: bool, isChild: bool, parentId: Option<int>): seq<ModulePermission> {
    Update(perms, AddressOf(moduleId, isChild, parentId), SelectAllEdit(available, selectAll))
  }

  /** `handleSelectCategory`. */
  function SelectCategory(perms: seq<ModulePermission>, moduleId: int, category: string,
                          available: seq<AvailablePermission>, selectAll: bool, isChild: bool,
                          parentId: Option<int>): seq<ModulePermission> {
    Update(perms, AddressOf(moduleId, isChild, parentId), CategoryEdit(available, category, selectAll))
  }

  /** Two modules agree on everything but what is granted. */
  predicate SameModule(x: ModulePermission, y: ModulePermission) {
    x.moduleId == y.moduleId && x.moduleName == y.moduleName && x.available == y.available
  }

  /** Two page lists agree on everything but the granted lists, at both levels. */
  predicate SameLayout(r: seq<ModulePermission>, perms: seq<ModulePermission>) {
    |r| == |perms| &&
    forall i :: 0 <= i < |perms| ==>
      SameModule(r[i], perms[i]) && |r[i].children| == |perms[i].children| &&
      forall j :: 0 <= j < |perms[i].children| ==>
        SameModule(r[i].children[j], perms[i].children[j]) &&
        r[i].children[j].children == perms[i].children[j].children
  }

  /**
   * An edit keeps every module, in place; it changes the granted list of the
   * modules its address reaches, as the edit says, and of no other.
   */
  lemma UpdateLaws(perms: seq<ModulePermission>, a: Address, e: Edit)
    ensures SameLayout(Update(perms, a, e), perms)
    ensures forall i :: 0 <= i < |perms| ==>
      Update(perms, a, e)[i].granted ==
        (if TopAddressed(a, perms[i]) then Applied(e, perms[i].granted) else perms[i].granted)
    ensures forall i, j :: 0 <= i < |perms| && 0 <= j < |perms[i].children| ==>
      Update(perms, a, e)[i].children[j].granted ==
        (if ChildAddressed(a, perms[i], perms[i].children[j]) then Applied(e, perms[i].children[j].granted)
         else perms[i].children[j].granted)
  {
  }

  /** An edit whose second application adds nothing to the first. */
  ghost predicate Idempotent(e: Edit) {
    forall current :: Applied(e, Applied(e, current)) == Applied(e, current)
  }

  lemma {:induction false} UpdateOneTwice(perm: ModulePermission, a: Address, e: Edit)
    requires Idempotent(e)
    ensures UpdateOne(UpdateOne(perm, a, e), a, e) == UpdateOne(perm, a, e)
  {
    if a.Nested? && perm.moduleId == a.parentId {
      var once := UpdateOne(perm, a, e);
      var twice := UpdateOne(once, a, e);
      assert twice.children == once.children;
    }
  }

  /** Repeating an idempotent edit on the page changes nothing. */
  lemma UpdateTwice(perms: seq<ModulePermission>, a: Address, e: Edit)
    requires Idempotent(e)
    ensures Update(Update(perms, a, e), a, e) == Update(perms, a, e)
  {
    forall i | 0 <= i < |perms|
      ensures Update(Update(perms, a, e), a, e)[i] == Update(perms, a, e)[i]
    {
      UpdateOneTwice(perms[i], a, e);
    }
  }

  /** The select-all and the category edits are idempotent. */
  lemma IdempotentEdits(available: seq<AvailablePermission>, category: string, selectAll: bool)
    ensures Idempotent(SelectAllEdit(available, selectAll))
    ensures Idempotent(CategoryEdit(available, category, selectAll))
  {
    var e := CategoryEdit(available, category, selectAll);
    forall current
      ensures Applied(e, Applied(e, current)) == Applied(e, current)
    {
      CategoryIdempotent(current, e.codenames, selectAll);
    }
  }

  /** Pressing select-all (or clear) twice is the same as pressing it once. */
  lemma SelectAllTwice(perms: seq<ModulePermission>, moduleId: int, available: seq<AvailablePermission>,
                       selectAll: bool, isChild: bool, parentId: Option<int>)
    ensures SelectAll(SelectAll(perms, moduleId, available, selectAll, isChild, parentId),
                      moduleId, available, selectAll, isChild, parentId) ==
            SelectAll(perms, moduleId, available, selectAll, isChild, parentId)
  {
    IdempotentEdits(available, "", selectAll);
    UpdateTwice(perms, AddressOf(moduleId, isChild, parentId), SelectAllEdit(available, selectAll));
  }

  /** Selecting (or clearing) a category twice is the same as doing it once. */
  lemma SelectCategoryTwice(perms: seq<ModulePermission>, moduleId: int, category: string,
                            available: seq<AvailablePermission>, selectAll: bool, isChild: bool,
                            parentId: Option<int>)
    ensures SelectCategory(SelectCategory(perms, moduleId, category, available, selectAll, isChild, parentId),
                           moduleId, category, available, selectAll, isChild, parentId) ==
            SelectCategory(perms, moduleId, category, available, selectAll, isChild, parentId)
  {
    IdempotentEdits(available, category, selectAll);
    UpdateTwice(perms, AddressOf(moduleId, isChild, parentId), CategoryEdit(available, category, selectAll));
  }

  /**
   * Pressing the same pill twice leaves every module's granted codenames as
   * they were (the codename may move to the end of its list).
   */
  lemma TogglePermissionTwice(perms: seq<ModulePermission>, moduleId: int, codename: string, isChild: bool,
                    parentId: Option<int>)
    ensures var r := TogglePermission(TogglePermission(perms, moduleId, codename, isChild, parentId),
                                      moduleId, codename, isChild, parentId);
            SameLayout(r, perms) &&
            (forall i :: 0 <= i < |perms| ==> Elems(r[i].granted) == Elems(perms[i].granted)) &&
            (forall i, j :: 0 <= i < |perms| && 0 <= j < |perms[i].children| ==>
               Elems(r[i].children[j].granted) == Elems(perms[i].children[j].granted))
  {
    var a := AddressOf(moduleId, isChild, parentId);
    var e := FlipOne(codename);
    var mid := Update(perms, a, e);
    var r := Update(mid, a, e);
    UpdateLaws(perms, a, e);
    UpdateLaws(mid, a, e);
    forall i | 0 <= i < |perms|
      ensures Elems(r[i].granted) == Elems(perms[i].granted)
    {
      ToggleTwice(perms[i].granted, codename);
    }
    forall i, j | 0 <= i < |perms| && 0 <= j < |perms[i].children|
      ensures Elems(r[i].children[j].granted) == Elems(perms[i].children[j].granted)
    {
      ToggleTwice(perms[i].children[j].granted, codename);
    }
  }

  // ---------------------------------------------------------------------
  // Grouping by category and the badges
  // ---------------------------------------------------------------------

  /** The definitions in one category, in their original order. */
  function InCategory(available: seq<AvailablePermission>, category: string): (r: seq<AvailablePermission>)
    ensures forall p :: p in r <==> p in available && p.category == category
    ensures |r| <= |available|
    decreases |available|
  {
    if available == [] then []
    else
      var init := available[..|available| - 1];
      var last := available[|available| - 1];
      assert available == init + [last];
      InCategory(init, category) + (if last.category == category then [last] else [])
  }

  /** The categories that occur among some definitions. */
  function Categories(available: seq<AvailablePermission>): set<string> {
    set p | p in available :: p.category
  }

  /** The groups of the first definitions: one per category seen, each that category's definitions in order. */
  predicate GroupedSoFar(grouped: map<string, seq<AvailablePermission>>, seen: seq<AvailablePermission>) {
    grouped.Keys == Categories(seen) &&
    forall c :: c in grouped ==> grouped[c] == InCategory(seen, c)
  }

  lemma {:induction false} NoneInCategory(seen: seq<AvailablePermission>, category: string)
    requires category !in Categories(seen)
    ensures InCategory(seen, category) == []
    decreases |seen|
  {
    if seen != [] {
      var init := seen[..|seen| - 1];
      assert seen == init + [seen[|seen| - 1]];
      assert Categories(init) <= Categories(seen);
      NoneInCategory(init, category);
    }
  }

  /** One more definition goes to the end of its category's group, which is created when missing. */
  lemma GroupStep(grouped: map<string, seq<AvailablePermission>>, seen: seq<AvailablePermission>, p: AvailablePermission)
    requires GroupedSoFar(grouped, seen)
    ensures GroupedSoFar(grouped[p.category := (if p.category in grouped then grouped[p.category] else []) + [p]],
                         seen + [p])
  {
    var s := seen + [p];
    assert s[..|s| - 1] == seen;
    assert Categories(s) == Categories(seen) + {p.category};
    if p.category !in grouped {
      NoneInCategory(seen, p.category);
    }
    var next := grouped[p.category := (if p.category in grouped then grouped[p.category] else []) + [p]];
    forall c | c in next
      ensures next[c] == InCategory(s, c)
    {
    }
  }

  /**
   * The own properties of `Object.prototype`. Indexing a plain object literal
   * with one of these names finds the inherited member, which is truthy and
   * has no `push`.
   */
  const ObjectPrototypeMembers: set<string> :=
    {"constructor", "__proto__", "__defineGetter__", "__defineSetter__", "__lookupGetter__", "__lookupSetter__",
     "hasOwnProperty", "isPrototypeOf", "propertyIsEnumerable", "toLocaleString", "toString", "valueOf"}

  /** Some definition's category is named like an `Object.prototype` member. */
  predicate HasInheritedCategory(available: seq<AvailablePermission>) {
    exists i :: 0 <= i < |available| && available[i].category in ObjectPrototypeMembers
  }

  lemma InheritedStep(available: seq<AvailablePermission>, i: nat)
    requires i < |available| && !HasInheritedCategory(available[..i])
    requires available[i].category !in ObjectPrototypeMembers
    ensures !HasInheritedCategory(available[..i + 1])
  {
    var t := available[..i + 1];
    forall j | 0 <= j < |t| ensures t[j].category !in ObjectPrototypeMembers {
      if j < i {
        assert t[j] == available[..i][j];
      }
    }
  }

  /** Rendering stops with an exception. */
  datatype RenderError = TypeError

  /**
   * `groupByCategory`: one list per category that occurs, each holding that
   * category's definitions in their original order. The groups live in a
   * plain object literal, so a category named like an `Object.prototype`
   * member skips the `[]` initialisation and the `push` on the inherited
   * member throws.
   */
  method GroupByCategory(available: seq<AvailablePermission>)
    returns (r: Result<map<string, seq<AvailablePermission>>, RenderError>)
    ensures r.Err? <==> HasInheritedCategory(available)
    ensures r.Ok? ==> r.value.Keys == Categories(available)
    ensures r.Ok? ==> forall c :: c in r.value ==> r.value[c] == InCategory(available, c)
  {
    var grouped := map[];
    for i := 0 to |available|
      invariant GroupedSoFar(grouped, available[..i])
      invariant !HasInheritedCategory(available[..i])
    {
      var p := available[i];
      if p.category in ObjectPrototypeMembers {
        return Err(TypeError);
      }
      InheritedStep(available, i);
      GroupStep(grouped, available[..i], p);
      assert available[..i + 1] == available[..i] + [p];
      var list := if p.category in grouped then grouped[p.category] else [];
      grouped := grouped[p.category := list + [p]];
    }
    assert available[..|available|] == available;
    return Ok(grouped);
  }

  /** Each definition lies in its own category's group and in no other. */
  lemma GroupsPartition(available: seq<AvailablePermission>, p: AvailablePermission, category: string)
    requires p in available
    ensures p in InCategory(available, category) <==> p.category == category
  {
  }

  /** `allGranted`: the module defines something and every codename it defines is granted. */
  predicate AllGranted(available: seq<AvailablePermission>, granted: seq<string>) {
    |available| > 0 && forall i :: 0 <= i < |available| ==> available[i].codename in granted
  }

  /** `someGranted`: something is granted but not everything. */
  predicate SomeGranted(available: seq<AvailablePermission>, granted: seq<string>) {
    |granted| > 0 && !AllGranted(available, granted)
  }

  /**
   * The select-all button sends `!allGranted`: when the module defines
   * something, each press turns the "all" badge on or off, and afterwards
   * the "some" badge is never shown.
   */
  lemma SelectAllButtonAlternates(available: seq<AvailablePermission>, granted: seq<string>)
    ensures var after := Applied(SelectAllEdit(available, !AllGranted(available, granted)), granted);
            AllGranted(available, after) == (|available| > 0 && !AllGranted(available, granted)) &&
            !SomeGranted(available, after)
  {
    var after := Applied(SelectAllEdit(available, !AllGranted(available, granted)), granted);
    if !AllGranted(available, granted) {
      assert after == Codenames(available);
      assert forall i :: 0 <= i < |available| ==> available[i].codename == after[i];
    } else {
      assert after == [] && available[0].codename !in after;
    }
  }

  /** `allCategoryGranted`: every definition in the category's group is granted. */
  predicate AllCategoryGranted(group: seq<AvailablePermission>, granted: seq<string>) {
    forall i :: 0 <= i < |group| ==> group[i].codename in granted
  }

  /**
   * A category button is shown only for a category with definitions and
   * sends `!allCategoryGranted`: each press turns its highlight on or off.
   */
  lemma CategoryButtonAlternates(available: seq<AvailablePermission>, category: string, granted: seq<string>)
    requires InCategory(available, category) != []
    ensures var group := InCategory(available, category);
            var after := Applied(CategoryEdit(available, category, !AllCategoryGranted(group, granted)), granted);
            AllCategoryGranted(group, after) == !AllCategoryGranted(group, granted)
  {
    var group := InCategory(available, category);
    var cs := Codenames(group);
    assert forall i :: 0 <= i < |group| ==> group[i].codename == cs[i];
    if AllCategoryGranted(group, granted) {
      CategoryClear(granted, cs);
      assert group[0].codename in cs;
    } else {
      CategorySelect(granted, cs);
      assert forall i :: 0 <= i < |group| ==> cs[i] in Elems(cs);
    }
  }

  // ---------------------------------------------------------------------
  // The save payload
  // ---------------------------------------------------------------------

  function Entry(m: ModulePermission): UpdatePermissionData {
    UpdatePermissionData(m.moduleId, m.granted)
  }

  /** One line per child, in order. */
  function ChildEntries(children: seq<ModulePermission>): seq<UpdatePermissionData> {
    seq(|children|, j requires 0 <= j < |children| => Entry(children[j]))
  }

  /** A module's lines: its own, then one per child (grandchildren are not sent). */
  function Block(m: ModulePermission): seq<UpdatePermissionData> {
    [Entry(m)] + ChildEntries(m.children)
  }

  /** The payload the page's list gives, module by module. */
  function Flatten(perms: seq<ModulePermission>): seq<UpdatePermissionData>
    decreases |perms|
  {
    if perms == [] then [] else Flatten(perms[..|perms| - 1]) + Block(perms[|perms| - 1])
  }

  /** `handleSave`'s loops: each module's line, then its children's lines. */
  method BuildPayload(perms: seq<ModulePermission>) returns (all: seq<UpdatePermissionData>)
    ensures all == Flatten(perms)
  {
    all := [];
    for i := 0 to |perms|
      invariant all == Flatten(perms[..i])
    {
      var perm := perms[i];
      assert perms[..i + 1][..i] == perms[..i];
      var before := all;
      all := all + [Entry(perm)];
      for j := 0 to |perm.children|
        invariant all == before + [Entry(perm)] + ChildEntries(perm.children[..j])
      {
        assert ChildEntries(perm.children[..j + 1]) == ChildEntries(perm.children[..j]) + [Entry(perm.children[j])];
        all := all + [Entry(perm.children[j])];
      }
      assert perm.children[..|perm.children|] == perm.children;
    }
    assert perms[..|perms|] == perms;
  }

  lemma {:induction false} FlattenAppend(a: seq<ModulePermission>, b: seq<ModulePermission>)
    ensures Flatten(a + b) == Flatten(a) + Flatten(b)
    decreases |b|
  {
    if b == [] {
      assert a + b == a;
    } else {
      var init := b[..|b| - 1];
      assert (a + b)[..|a + b| - 1] == a + init;
      FlattenAppend(a, init);
    }
  }

  /**
   * The payload lists the modules in the page's order, each module's line
   * followed at once by its children's lines.
   */
  lemma PayloadLayout(perms: seq<ModulePermission>, i: nat)
    requires i < |perms|
    ensures Flatten(perms) == Flatten(perms[..i]) + Block(perms[i]) + Flatten(perms[i + 1..])
    ensures Block(perms[i])[0] == UpdatePermissionData(perms[i].moduleId, perms[i].granted)
    ensures forall j :: 0 <= j < |perms[i].children| ==>
      Block(perms[i])[1 + j] == UpdatePermissionData(perms[i].children[j].moduleId, perms[i].children[j].granted)
  {
    assert perms == perms[..i] + [perms[i]] + perms[i + 1..];
    FlattenAppend(perms[..i] + [perms[i]], perms[i + 1..]);
    FlattenAppend(perms[..i], [perms[i]]);
    assert [perms[i]][..0] == [];
  }

  // ---------------------------------------------------------------------
  // The totals
  // ---------------------------------------------------------------------

  /** Which list the footer counts. */
  datatype Measure = Available | Granted

  function Size(m: ModulePermission, measure: Measure): nat {
    if measure.Available? then |m.available| else |m.granted|
  }

  /** The children's sizes, summed. */
  function ChildrenTotal(children: seq<ModulePermission>, measure: Measure): nat
    decreases |children|
  {
    if children == [] then 0
    else ChildrenTotal(children[..|children| - 1], measure) + Size(children[|children| - 1], measure)
  }

  /** One module's contribution: its own size and its children's. */
  function ModuleTotal(m: ModulePermission, measure: Measure): nat {
    Size(m, measure) + ChildrenTotal(m.children, measure)
  }

  function Total(perms: seq<ModulePermission>, measure: Measure): nat
    decreases |perms|
  {
    if perms == [] then 0 else Total(perms[..|perms| - 1], measure) + ModuleTotal(perms[|perms| - 1], measure)
  }

  /** The footer's `reduce`: per module its own size plus each child's. */
  method Count(perms: seq<ModulePermission>, measure: Measure) returns (acc: nat)
    ensures acc == Total(perms, measure)
  {
    acc := 0;
    for i := 0 to |perms|
      invariant acc == Total(perms[..i], measure)
    {
      var p := perms[i];
      assert perms[..i + 1][..i] == perms[..i];
      var count := Size(p, measure);
      for j := 0 to |p.children|
        invariant count == Size(p, measure) + ChildrenTotal(p.children[..j], measure)
      {
        assert p.children[..j + 1][..j] == p.children[..j];
        count := count + Size(p.children[j], measure);
      }
      assert p.children[..|p.children|] == p.children;
      acc := acc + count;
    }
    assert perms[..|perms|] == perms;
  }

  /** A granted list holds each codename once and only codenames the module defines. */
  predicate WellGranted(m: ModulePermission) {
    NoDup(m.granted) && Elems(m.granted) <= Elems(Codenames(m.available))
  }

  lemma {:induction false} ElemsSize<T>(s: seq<T>)
    ensures |Elems(s)| <= |s|
    ensures NoDup(s) ==> |Elems(s)| == |s|
    decreases |s|
  {
    if s != [] {
      var init := s[..|s| - 1];
      assert s == init + [s[|s| - 1]];
      assert Elems(s) == Elems(init) + {s[|s| - 1]};
      ElemsSize(init);
    }
  }

  /** A well-granted module's count never exceeds its definitions' count. */
  lemma GrantedWithinAvailable(m: ModulePermission)
    requires WellGranted(m)
    ensures Size(m, Granted) <= Size(m, Available)
  {
    ElemsSize(m.granted);
    ElemsSize(Codenames(m.available));
    assert |Elems(m.granted)| <= |Elems(Codenames(m.available))| by {
      SubsetSize(Elems(m.granted), Elems(Codenames(m.available)));
    }
  }

  lemma SubsetSize<T>(a: set<T>, b: set<T>)
    requires a <= b
    ensures |a| <= |b|
  {
    assert b == a + (b - a);
  }

  lemma {:induction false} ChildrenWithin(children: seq<ModulePermission>)
    requires forall j :: 0 <= j < |children| ==> WellGranted(children[j])
    ensures ChildrenTotal(children, Granted) <= ChildrenTotal(children, Available)
    decreases |children|
  {
    if children != [] {
      ChildrenWithin(children[..|children| - 1]);
      GrantedWithinAvailable(children[|children| - 1]);
    }
  }

  /** When every module and child is well granted, the footer's granted total is at most its available total. */
  lemma {:induction false} TotalsOrdered(perms: seq<ModulePermission>)
    requires forall i :: 0 <= i < |perms| ==>
               (WellGranted(perms[i]) &&
                forall j :: 0 <= j < |perms[i].children| ==> WellGranted(perms[i].children[j]))
    ensures Total(perms, Granted) <= Total(perms, Available)
    decreases |perms|
  {
    if perms != [] {
      var last := perms[|perms| - 1];
      TotalsOrdered(perms[..|perms| - 1]);
      GrantedWithinAvailable(last);
      ChildrenWithin(last.children);
    }
  }

  /** The codenames a payload carries, summed over its lines. */
  function PayloadSize(entries: seq<UpdatePermissionData>): nat
    decreases |entries|
  {
    if entries == [] then 0 else PayloadSize(entries[..|entries| - 1]) + |entries[|entries| - 1].granted|
  }

  lemma {:induction false} PayloadSizeAppend(a: seq<UpdatePermissionData>, b: seq<UpdatePermissionData>)
    ensures PayloadSize(a + b) == PayloadSize(a) + PayloadSize(b)
    decreases |b|
  {
    if b == [] {
      assert a + b == a;
    } else {
      var init := b[..|b| - 1];
      assert (a + b)[..|a + b| - 1] == a + init;
      PayloadSizeAppend(a, init);
    }
  }

  lemma {:induction false} ChildEntriesSize(children: seq<ModulePermission>)
    ensures PayloadSize(ChildEntries(children)) == ChildrenTotal(children, Granted)
    decreases |children|
  {
    if children != [] {
      var init := children[..|children| - 1];
      assert ChildEntries(children)[..|children| - 1] == ChildEntries(init);
      ChildEntriesSize(init);
    }
  }

  /** The footer's granted total is exactly the number of codenames the save request carries. */
  lemma {:induction false} GrantedTotalIsPayload(perms: seq<ModulePermission>)
    ensures PayloadSize(Flatten(perms)) == Total(perms, Granted)
    decreases |perms|
  {
    if perms != [] {
      var last := perms[|perms| - 1];
      GrantedTotalIsPayload(perms[..|perms| - 1]);
      PayloadSizeAppend(Flatten(perms[..|perms| - 1]), Block(last));
      PayloadSizeAppend([Entry(last)], ChildEntries(last.children));
      ChildEntriesSize(last.children);
      assert PayloadSize([Entry(last)]) == |last.granted| by {
        assert [Entry(last)][..0] == [];
      }
    }
  }
}
