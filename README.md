# Access control of the NeuraCraft admin panel, in Dafny

This project models the part of the admin panel that decides who may see and
do what, on both the server and the client.

On the server (Django) it models:

- the three tables: navigation modules, the permission codenames each module
  defines, and per-role grants of those definitions;
- the database rules on those tables: foreign keys, the two `unique_together`
  constraints and the `CASCADE` deletions;
- how a user's menu is derived from the grants of all their roles;
- how a module's definitions are created and reconciled with a submitted list;
- how the serializers shape module trees.

On the client (React) it models:

- the `usePermissions` hook's path lookup and predicates;
- the role-permission editor's state transforms, save payload, badges and
  totals;
- the data table's sort, selection and pagination logic.

The files:

| file | module | content |
|---|---|---|
| `common.dfy` | `Common` | Option/Result, Python's `str` order, `sorted` on a set of strings, a stable sort by an integer key, the toggle of one element in a list |
| `models.dfy` | `Models` | the tables as a `Store` class with its invariants, inserts that fail on constraint violations, cascade deletes |
| `serializers.dfy` | `Serializers` | module trees (active children ordered by `order`, at every depth), the with-permissions variant, granted codenames |
| `views.dfy` | `Views` | grant merging, menu building, the menu endpoint, module listing, create- and update-with-permissions |
| `use_permissions.dfy` | `UsePermissions` | the hook: first-match lookup over the two-level menu, `hasPermission`, `hasAnyPermission`, `hasAllPermissions`, `canX` |
| `role_permissions.dfy` | `RolePermissions` | the editor: toggle, select-all, category select, addressing of child modules, badges, grouping by category, save payload, totals |
| `data_table.dfy` | `DataTable` | sort state machine and comparator, row and header selection, cell text, page window and "showing X to Y" range |

Database ids come from one counter in the store. The iteration order of a
Python dictionary or of an unordered query is modelled as an arbitrary order
that the caller cannot rely on, followed by the stable sort the code applies.

Where the code and its documentation differ, the model follows the code. A
module appears in the menu only when the literal codename `view` is in its
merged set, not whenever that set is non-empty. A parent without `view` hides
all of its children, even children that have `view` themselves.

## Model

| member | source | states |
|---|---|---|
| Common.Sorted | base_template/apps/modules/views.py:259 | `sorted` of a set of strings returns every element exactly once, in strictly increasing code-point order |
| Common.SortedListUnique | base_template/apps/modules/views.py:250 | a set has only one strictly sorted list, so the emitted codename list is determined by the set |
| Common.StrLtTotal | base_template/apps/modules/views.py:250 | two different strings are always ordered one way or the other, as Python compares `str` |
| Common.StrLtTransitive | base_template/apps/modules/views.py:250 | the string order is transitive |
| Common.SortByKey | base_template/apps/modules/views.py:227 | sorting by `order` gives a permutation of the input, in non-decreasing order |
| Common.ListOf | base_template/apps/modules/views.py:224 | iterating a dictionary visits every key exactly once |
| Common.WithoutAppend | front_template/src/components/ui/DataTable.tsx:104 | `filter` keeps the order of the kept elements: it distributes over concatenation |
| Common.Toggle | front_template/src/components/ui/DataTable.tsx:101-108 | a click toggles the clicked element's membership and leaves every other element's membership alone; an absent element is appended at the end; a list without duplicates keeps none |
| Common.ToggleTwice | front_template/src/modules/roles/RolePermissions.tsx:86-88 | toggling twice restores the membership set, and restores the exact list when the element was absent |
| Models.Store.constructor | base_template/apps/modules/models.py:4-32 | the empty tables satisfy every foreign key and uniqueness rule |
| Models.Store.AddRole | base_template/apps/modules/models.py:97-101 | a new role gets a fresh id, and no other table changes |
| Models.Store.InsertModule | base_template/apps/modules/models.py:13-19 | inserting a module fails with an integrity error exactly when its parent does not exist; otherwise the row is added under a fresh id |
| Models.Store.UpdateModule | base_template/apps/modules/views.py:56-64 | an unknown id is "not found"; a parent that does not exist is rejected; otherwise only that row is replaced |
| Models.Store.InsertPermission | base_template/apps/modules/models.py:82 | inserting a definition fails exactly when its module is missing or the module already defines that codename |
| Models.Store.FindPermission | base_template/apps/modules/views.py:358-360 | finds the definition with a given module and codename, or reports that there is none |
| Models.Store.UpdatePermissionFields | base_template/apps/modules/views.py:361-365 | only the label, category and order of that one definition change |
| Models.Store.UpdateOrCreate | base_template/apps/modules/views.py:358-366 | afterwards exactly one definition has the given (module, codename) and carries the new fields; an existing row keeps its id; no other row changes |
| Models.Store.InsertGrant | base_template/apps/modules/models.py:117 | inserting a grant fails exactly when a foreign key dangles or the role already has a row for that module |
| Models.Store.Subtree | base_template/apps/modules/models.py:13-19 | the worklist finds the least set that contains the module and every child of a member |
| Models.SubtreeOnlyDescendants | base_template/apps/modules/models.py:13-19 | every module in a cascade set other than its root has its parent in the set |
| Models.SubtreeUnique | base_template/apps/modules/models.py:13-19 | the cascade set of a module is unique |
| Models.Store.DeleteModule | base_template/apps/modules/models.py:13-19 | deleting a module removes its whole subtree, every definition of those modules and every grant row on them; surviving grants lose the deleted definitions; an unknown id changes nothing |
| Models.CascadeKeepsInvariants | base_template/apps/modules/models.py:102-106 | after a cascade no foreign key dangles and both uniqueness constraints still hold |
| Models.Store.DeleteRole | base_template/apps/modules/models.py:97-101 | deleting a role deletes exactly its grant rows; other roles' rows are untouched |
| Models.Store.DeletePermissions | base_template/apps/modules/models.py:107-111 | deleting definitions removes them from every grant's granted set, and every grant row remains |
| Serializers.DefBeforeTotal | base_template/apps/modules/models.py:83 | the default ordering (category, order, codename) separates any two definitions with different codenames |
| Serializers.DefBeforeTransitive | base_template/apps/modules/models.py:83 | the default ordering is transitive |
| Serializers.SortRows | base_template/apps/modules/models.py:83 | a set of definitions is listed once each, in the default ordering |
| Serializers.AvailablePermissions | base_template/apps/modules/serializers.py:37 | `available_permissions` lists exactly the module's definitions, each once, in the default ordering |
| Serializers.AvailableStrictlyOrdered | base_template/apps/modules/models.py:82 | because codenames are unique per module, that listing is strictly ordered |
| Serializers.GrantedCodenames | base_template/apps/modules/serializers.py:63-64 | a grant row serializes to exactly the codenames of its granted definitions |
| Serializers.GrantedInDefaultOrder | base_template/apps/modules/serializers.py:63-64 | those codenames come one per definition, in the default ordering of the definitions |
| Serializers.ListingExists | base_template/apps/modules/serializers.py:17 | every module has a listing of its active children, each once, in non-decreasing `order` |
| Serializers.TreeChildren | base_template/apps/modules/serializers.py:16-18 | a tree node's children are the trees of the module's listed active children, in listing order; `Serializers.Tree` models `get_children` |
| Serializers.TreeShaped | base_template/apps/modules/serializers.py:16-18 | at every depth, each node shows its module's fields, and its children are exactly the active children, each once, in non-decreasing `order` |
| Serializers.DescendantsActive | base_template/apps/modules/serializers.py:17 | every serialized child is active and names its parent |
| Serializers.TreeWithPermsChildren | base_template/apps/modules/serializers.py:45-47 | the with-permissions tree expands the same listed children; `Serializers.TreeWithPerms` models the with-permissions `get_children` |
| Serializers.SameShape | base_template/apps/modules/serializers.py:45-47 | with the definitions removed, the with-permissions tree is the plain tree, at every depth |
| Serializers.AvailableAtEveryNode | base_template/apps/modules/serializers.py:37 | every child node carries its own module's definitions and names its parent |
| Views.AddCodenames | base_template/apps/modules/views.py:210-211 | adding the codenames of a row's granted definitions adds exactly those codenames |
| Views.MergedPermissions | base_template/apps/modules/views.py:187-213 | each active module with a grant row for any of the roles gets one entry, holding the union of the granted codenames of those rows |
| Views.MergedOverSelected | base_template/apps/modules/views.py:195-198 | merging exactly the rows of the roles on active modules gives the merged dictionary |
| Views.MergedModulesActive | base_template/apps/modules/views.py:197 | inactive modules never get an entry |
| Views.NoRolesNothingMerged | base_template/apps/modules/views.py:176-177 | with no roles nothing is merged |
| Views.MergedUnique | base_template/apps/modules/views.py:203-207 | the merged dictionary is determined by the tables and the roles, including entries whose rows grant nothing |
| Views.OrderedIds | base_template/apps/modules/views.py:240 | the listed modules appear each once, in non-decreasing `order` |
| Views.MakeItem | base_template/apps/modules/views.py:244-251 | a menu item shows its module's fields and its merged codenames, sorted |
| Views.BuildChildren | base_template/apps/modules/views.py:232-251 | a parent's children are exactly the modules with `view` whose parent is that parent, each once, ordered by `order`, with no children of their own |
| Views.BuildMenu | base_template/apps/modules/views.py:215-263 | the top level is exactly the parentless modules with `view`, ordered, each with its children |
| Views.UserMenu | base_template/apps/modules/views.py:169-185 | no roles gives an empty menu; otherwise the menu is the one built from the merge of the roles' grants |
| Views.TopLevelMembership | base_template/apps/modules/views.py:222-226 | a module is at the top level iff it has `view` in its merged set and no parent |
| Views.ChildPlacement | base_template/apps/modules/views.py:232-237 | a child sits only under a top-level item that is its parent, and only with `view`; deeper descendants never appear |
| Views.MenuItemsViewable | base_template/apps/modules/views.py:236 | every item at either level lists `view` |
| Views.TopLevelFromTables | base_template/apps/modules/views.py:222-226 | in terms of the tables: a module is at the top level iff it is active, has no parent, and a grant of one of the roles on it grants a `view` definition |
| Views.ListModules | base_template/apps/modules/views.py:22-25 | the module listing holds exactly the parentless modules, active or not, each once, by `order` |
| Views.Wanted | base_template/apps/modules/views.py:300-305 | a submitted entry defaults to category `crud` and to order index+1 |
| Views.LastBefore | base_template/apps/modules/views.py:357-366 | finds the last entry before a position that has a given codename, which is the entry that decides that codename's fields |
| Views.CreateWithPermissions | base_template/apps/modules/views.py:287-318 | an invalid parent is a 400 and changes nothing; otherwise the module is created with one definition per entry; a repeated codename fails on its second create, after the earlier rows were saved; every row added belongs to the new module, so other modules' definitions are untouched |
| Views.DefinedCodenames | base_template/apps/modules/views.py:299-306 | after the loop the module defines exactly the submitted codenames |
| Views.PatchLaws | base_template/apps/modules/views.py:340-344 | a partial update with no keys changes nothing, and applying the same patch twice is applying it once |
| Views.ReconcilePermissions | base_template/apps/modules/views.py:347-366 | the module's codenames become exactly the submitted ones; each carries the fields of its last entry; kept rows keep their ids; other modules' rows are untouched; grants lose only the deleted definitions |
| Views.UpdateWithPermissions | base_template/apps/modules/views.py:330-378 | an unknown module is a 404 and an invalid parent a 400, both without change; otherwise the patch is saved, and the definitions are reconciled only when a list was sent |
| UsePermissions.FindChild | front_template/src/hooks/usePermissions.ts:30 | `find` returns a child with the path iff there is one |
| UsePermissions.FindChildIsFirst | front_template/src/hooks/usePermissions.ts:30 | the child found is the first one with the path |
| UsePermissions.Lookup | front_template/src/hooks/usePermissions.ts:19-36 | the loop with its breaks computes the first-match permission list |
| UsePermissions.FirstMatchWins | front_template/src/hooks/usePermissions.ts:21-36 | the first top-level item that matches, by its own path or a child's, decides; no match gives the empty list; `UsePermissions.FindPermissions` is the reference definition of the lookup |
| UsePermissions.ParentBeforeChildren | front_template/src/hooks/usePermissions.ts:23-26 | an item's own path is matched before its children |
| UsePermissions.Pruned | front_template/src/hooks/usePermissions.ts:29-35 | the menu with every grandchild removed keeps all other fields |
| UsePermissions.OneLevelOnly | front_template/src/hooks/usePermissions.ts:29-35 | removing grandchildren never changes the lookup, so only one level of children is searched |
| UsePermissions.HasAnyPermission | front_template/src/hooks/usePermissions.ts:43-45 | true iff some listed permission is held; false for an empty list |
| UsePermissions.HasAllPermissions | front_template/src/hooks/usePermissions.ts:47-49 | true iff every listed permission is held; true for an empty list |
| UsePermissions.Use | front_template/src/hooks/usePermissions.ts:51-61 | the hook returns the looked-up list, and `canView`, `canAdd`, `canEdit` and `canDelete` equal membership of `view`, `add`, `edit` and `delete`; `UsePermissions.HasPermission` models `hasPermission` |
| UsePermissions.UnknownPathDeniesAll | front_template/src/hooks/usePermissions.ts:19 | an unknown path gives the empty list, so every single and any-check is false and an all-check holds only for the empty list |
| UsePermissions.FoundPathViewable | front_template/src/hooks/usePermissions.ts:21-36 | on a server-built menu, a path that matches always holds `view`, and its list is some module's merged codenames, sorted |
| RolePermissions.Dedup | front_template/src/modules/roles/RolePermissions.tsx:152 | `[...new Set(...)]` keeps each element once and loses none |
| RolePermissions.DedupKeepsPrefix | front_template/src/modules/roles/RolePermissions.tsx:152 | a duplicate-free list stays in front, in order, whatever is appended |
| RolePermissions.DedupCovered | front_template/src/modules/roles/RolePermissions.tsx:152 | appending elements already present changes nothing |
| RolePermissions.Subtract | front_template/src/modules/roles/RolePermissions.tsx:154 | the filter keeps exactly the elements outside the removed list |
| RolePermissions.SubtractAppend | front_template/src/modules/roles/RolePermissions.tsx:154 | the filter keeps the order of the kept elements: it distributes over concatenation |
| RolePermissions.CategorySelect | front_template/src/modules/roles/RolePermissions.tsx:144-152 | selecting a category adds exactly its codenames, without duplicates, and keeps the existing list in front; `RolePermissions.UpdateGranted` models the `selectAll` branch of the category update |
| RolePermissions.CategoryClear | front_template/src/modules/roles/RolePermissions.tsx:144-155 | clearing a category removes exactly its codenames; codenames of other categories are untouched; the other branch of `RolePermissions.UpdateGranted` |
| RolePermissions.CategoryIdempotent | front_template/src/modules/roles/RolePermissions.tsx:150-155 | repeating a category select or clear changes nothing |
| RolePermissions.AddressOf | front_template/src/modules/roles/RolePermissions.tsx:78 | an edit reaches a child only when `isChild` is set and `parentId` is present and non-zero; otherwise it reaches a top-level module |
| RolePermissions.UpdateLaws | front_template/src/modules/roles/RolePermissions.tsx:70-105 | an edit keeps every module and child in place with its id, name and definitions; it rewrites the granted list of exactly the addressed modules, and no other |
| RolePermissions.TogglePermissionTwice | front_template/src/modules/roles/RolePermissions.tsx:97-99 | pressing the same pill twice leaves every module's and child's granted codenames as they were; `RolePermissions.TogglePermission` models `handlePermissionToggle` |
| RolePermissions.UpdateTwice | front_template/src/modules/roles/RolePermissions.tsx:76-104 | an idempotent edit applied twice to the page's list is applied once |
| RolePermissions.IdempotentEdits | front_template/src/modules/roles/RolePermissions.tsx:107-155 | the select-all, clear and category edits are idempotent on one list |
| RolePermissions.SelectAllTwice | front_template/src/modules/roles/RolePermissions.tsx:107-134 | select-all, and clear, pressed twice is the same as pressed once; `RolePermissions.SelectAll` models `handleSelectAll` |
| RolePermissions.SelectCategoryTwice | front_template/src/modules/roles/RolePermissions.tsx:136-174 | a category select or clear done twice is the same as done once; `RolePermissions.SelectCategory` models `handleSelectCategory` |
| RolePermissions.SelectAllButtonAlternates | front_template/src/modules/roles/RolePermissions.tsx:269 | the module button sends `!allGranted`, so with any definitions it alternates between all granted and none, and afterwards the "some" badge is off; `RolePermissions.AllGranted` and `RolePermissions.SomeGranted` model the two badges |
| RolePermissions.CategoryButtonAlternates | front_template/src/modules/roles/RolePermissions.tsx:293-306 | a shown category button sends `!allCategoryGranted`, so each press flips whether the whole category is granted |
| RolePermissions.InCategory | front_template/src/modules/roles/RolePermissions.tsx:200-207 | a category's group holds exactly the definitions of that category |
| RolePermissions.GroupStep | front_template/src/modules/roles/RolePermissions.tsx:202-205 | each definition goes to the end of its category's group, and the group is created when missing |
| RolePermissions.GroupByCategory | front_template/src/modules/roles/RolePermissions.tsx:200-207 | the grouping throws a `TypeError` exactly when some category is named like an `Object.prototype` member; otherwise there is one group per category that occurs, and each holds that category's definitions in their original order |
| RolePermissions.GroupsPartition | front_template/src/modules/roles/RolePermissions.tsx:200-207 | every definition is in its own category's group and in no other |
| RolePermissions.BuildPayload | front_template/src/modules/roles/RolePermissions.tsx:182-188 | the nested `forEach` loops build the flattened payload |
| RolePermissions.PayloadLayout | front_template/src/modules/roles/RolePermissions.tsx:182-188 | the payload lists each top-level module in displayed order, each followed at once by its children, each line carrying the module id and its granted list verbatim |
| RolePermissions.FlattenAppend | front_template/src/modules/roles/RolePermissions.tsx:183-187 | the payload of two consecutive runs of modules is the two payloads concatenated |
| RolePermissions.Count | front_template/src/modules/roles/RolePermissions.tsx:390-400 | each `reduce` total is the sum over the modules of their own count plus each child's count |
| RolePermissions.GrantedWithinAvailable | front_template/src/modules/roles/RolePermissions.tsx:262 | a module whose granted list holds each of its codenames at most once never shows more granted than available |
| RolePermissions.TotalsOrdered | front_template/src/modules/roles/RolePermissions.tsx:390-400 | under that condition the granted total never exceeds the available total |
| RolePermissions.GrantedTotalIsPayload | front_template/src/modules/roles/RolePermissions.tsx:396-400 | the granted total equals the number of codenames the save request carries |
| DataTable.NextSort | front_template/src/components/ui/DataTable.tsx:82-89 | clicking selects the clicked column; on the sorted column the direction flips, and on a new column it starts ascending |
| DataTable.ClickTwiceRestores | front_template/src/components/ui/DataTable.tsx:83-84 | clicking the sorted column twice restores its direction |
| DataTable.NewColumnTwiceIsDescending | front_template/src/components/ui/DataTable.tsx:82-89 | a new column clicked twice ends sorted descending |
| DataTable.SortState.HandleSort | front_template/src/components/ui/DataTable.tsx:82-89 | the component's sort state moves as `NextSort` says |
| DataTable.SortedData | front_template/src/components/ui/DataTable.tsx:111-119 | without a sort key the rows are unchanged; with one, the result is a permutation ordered ascending or descending by that field |
| DataTable.HandleSelectRow | front_template/src/components/ui/DataTable.tsx:101-108 | without a callback nothing happens; otherwise the callback receives the toggled selection |
| DataTable.SelectAllRows | front_template/src/components/ui/DataTable.tsx:94-98 | the selection is cleared when the counts are equal, and otherwise every row id is selected |
| DataTable.HandleSelectAll | front_template/src/components/ui/DataTable.tsx:92-99 | without a callback nothing happens; otherwise the callback receives the select-all result |
| DataTable.SelectAllAlternates | front_template/src/components/ui/DataTable.tsx:166 | a checked header becomes unchecked, and an unchecked header becomes checked when there are rows |
| DataTable.CellDisplay | front_template/src/components/ui/DataTable.tsx:122-129 | a column's renderer wins; otherwise a null or undefined value shows `-` and any other value shows its string |
| DataTable.PageWindow | front_template/src/components/ui/DataTable.tsx:328-338 | on a valid page the window has min(5, totalPages) consecutive page numbers, all within 1..totalPages, including the current page |
| DataTable.Pager | front_template/src/components/ui/DataTable.tsx:299-358 | the pager shows only with more than one page; Previous is disabled exactly on page 1 and Next exactly on the last page |
| DataTable.ShowingRange | front_template/src/components/ui/DataTable.tsx:304-308 | on a valid page the range lies within 1..totalItems, spans at most one page of items, and a full page before the last |

## Left out

- HTTP, authentication and the database engine: requests, responses and
  status codes become results (`Ok`, `BadRequest`, `NoSuchModule`,
  `ServerError`, `IntegrityError`, `NotFound`); the tables are maps held by
  one store object.
- Transactions: create-with-permissions is not atomic. The model keeps the
  rows saved before a failing create.
- Views.CreateWithPermissions: the response body (the re-read definitions)
  is not modelled; only the state change and the outcome are.
- Views.UpdateWithPermissions: the same re-read response body is not
  modelled; only the state change and the outcome are.
- Field validation other than the parent foreign key: lengths, required
  keys and the category choices are not checked. `objects.create` and
  `update_or_create` do not check choices either, so the category is a free
  string in the model. The serializer used by the per-permission endpoint
  does check choices.
- Explicit nulls in a submitted permission list are not modelled. An entry
  sent with `"category": null` or `"order": null` gets `None` from `.get`,
  and so does an entry without `codename` or `label`. The NOT NULL column then
  raises a server error after the module row is already saved. In the model
  a codename and a title are always present, and an absent category or order
  takes its default.
- Endpoints other than the ones above:
  - The single-module endpoints are modelled only through the store methods
    they call (`UpdateModule`, `DeleteModule`, `InsertPermission`,
    `DeletePermissions`).
  - The per-permission update is not modelled. Its partial serializer
    accepts `module` and `codename`, so it can move a definition to another
    module or rename it. A clash with an existing (module, codename) pair is
    then a 400 from the serializer's uniqueness validator. The model cannot
    move or rename a definition: `Models.Store.UpdatePermissionFields` is the
    defaults update of `update_or_create`, and rewrites only the title,
    category and order.
  - The modules-with-permissions endpoint and the module-detail endpoint only
    serialize. The first has the shape of `Serializers.TreeWithPerms`. The
    second uses the module serializer, whose `children` field recurses, so it
    has the shape of `Serializers.Tree`.
  - The module-detail-with-permissions endpoint is not modelled. It lists the
    module's definitions ordered by `order` alone, not in the default
    `(category, order, codename)` ordering.
- Serializers.Tree: the recursion depth is a parameter. The database may
  hold a parent cycle, on which the source would not terminate. The order of
  children with equal `order` is the database's, so the listing of children
  is an input that the lemmas quantify over.
- The roles and users tables exist only as the set of role ids. A user's
  roles are a parameter. The server side of saving a role's grants is not
  part of this model: its view is not among the modelled files. Only the
  payload the editor sends is modelled.
- Common.SortByKey: stability (equal keys keep their input order) is
  described but not stated as a contract.
- Serializers.SortRows: the database sorts by `(category, order, codename)`
  with its own collation. The model compares strings by code point. A locale
  collation that ignores punctuation or case can order codenames differently.
- Serializers.AvailablePermissions: lists the definitions in code-point
  order of category and codename, not the database collation's order.
- Serializers.GrantedInDefaultOrder: the same code-point assumption as
  `Serializers.SortRows`.
- DataTable.SortedData: cell values are compared as integers. JavaScript's
  `<` on mixed strings and numbers is not modelled.
- RolePermissions: these are not modelled:
  - React state and rendering;
  - the expanded-module list, which uses `Common.Toggle`;
  - the loading and saving flags;
  - the rendering of the per-module "granted/available" label (its two
    counts are `RolePermissions.Size`, bounded by
    `RolePermissions.GrantedWithinAvailable`);
  - the floating-point percentage of the progress ring.

  An absent `children` key is modelled as the empty list.
- The front end's `MenuItem` type declares permissions as a boolean record,
  but the server sends a list of codenames and the hook calls `.includes` on
  it. The model uses the list.
