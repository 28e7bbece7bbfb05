/**
 * The three access-control tables and the rules the database keeps for them:
 * modules (each with an optional parent module), the permission codenames a
 * module defines, and per-role grants of those definitions on a module.
 * Foreign keys must point at existing rows, a codename is unique within one
 * module, a role has at most one grant row per module, and deleting a row
 * deletes (on_delete=CASCADE) every row that refers to it.
 */
module Models {
  import opened Common

  /** The category choices of a permission definition. */
  const Crud := "crud"
  const Column := "column"
  const Component := "component"
  const Action := "action"
  const Field := "field"
  const CategoryChoices: set<string> := {Crud, Column, Component, Action, Field}
  const DefaultCategory := Crud

  /** A navigation module. `parent` is the id of its parent module, if any. */
  datatype Module = Module(name: string, icon: Option<string>, path: string, parent: Option<nat>,
                           order: int, isActive: bool)

  /** A permission a module supports, e.g. `view` or `export_csv` in category `action`. */
  datatype PermissionDef = PermissionDef(moduleId: nat, codename: string, title: string, category: string, order: int)

  /** A role's grant on one module: the ids of the granted permission definitions. */
  datatype Grant = Grant(role: nat, moduleId: nat, granted: set<nat>)

  datatype StoreError = IntegrityError | NotFound

  /** The codenames of the definitions among `ids`. */
  function CodenamesOf(ids: set<nat>, perms: map<nat, PermissionDef>): set<string> {
    set p | p in ids && p in perms :: perms[p].codename
  }

  // ---------------------------------------------------------------------
  // Table invariants, stated on the table contents
  // ---------------------------------------------------------------------

  ghost predicate ModulesOk(modules: map<nat, Module>, nextId: nat) {
    forall k :: k in modules ==>
      k < nextId && (modules[k].parent.Some? ==> modules[k].parent.value in modules)
  }

  ghost predicate PermsOk(perms: map<nat, PermissionDef>, modules: map<nat, Module>, nextId: nat) {
    forall p :: p in perms ==> p < nextId && perms[p].moduleId in modules
  }

  /** unique_together = ('module', 'codename') */
  ghost predicate CodenameUnique(perms: map<nat, PermissionDef>) {
    forall p, q :: p in perms && q in perms && p != q && perms[p].moduleId == perms[q].moduleId ==>
      perms[p].codename != perms[q].codename
  }

  ghost predicate GrantsOk(grants: map<nat, Grant>, perms: map<nat, PermissionDef>, modules: map<nat, Module>,
                           roles: set<nat>, nextId: nat) {
    forall g :: g in grants ==>
      g < nextId && grants[g].role in roles && grants[g].moduleId in modules && grants[g].granted <= perms.Keys
  }

  /** unique_together = ('role', 'module') */
  ghost predicate OneGrantPerPair(grants: map<nat, Grant>) {
    forall g, h :: g in grants && h in grants && g != h && grants[g].role == grants[h].role ==>
      grants[g].moduleId != grants[h].moduleId
  }

  // ---------------------------------------------------------------------
  // The cascade through the self-referencing parent key
  // ---------------------------------------------------------------------

  /** Every module whose parent is in `s` is in `s` too. */
  ghost predicate ChildClosed(modules: map<nat, Module>, s: set<nat>) {
    forall k :: k in modules && modules[k].parent.Some? && modules[k].parent.value in s ==> k in s
  }

  /** `d` is the least set of modules holding `root` and closed under "child of". */
  ghost predicate IsSubtree(modules: map<nat, Module>, root: nat, d: set<nat>) {
    && root in d
    && d <= modules.Keys
    && ChildClosed(modules, d)
    && forall s :: root in s && ChildClosed(modules, s) ==> d <= s
  }

  /** The modules outside `removed`. */
  function ModulesOutside(modules: map<nat, Module>, removed: set<nat>): map<nat, Module> {
    map k | k in modules && k !in removed :: modules[k]
  }

  /** The definitions whose module is outside `removed`. */
  function PermsOutside(perms: map<nat, PermissionDef>, removed: set<nat>): map<nat, PermissionDef> {
    map p | p in perms && perms[p].moduleId !in removed :: perms[p]
  }

  /** The grant rows whose module is outside `removed`, each cut down to the definitions in `kept`. */
  function GrantsOutside(grants: map<nat, Grant>, removed: set<nat>, kept: set<nat>): map<nat, Grant> {
    map g | g in grants && grants[g].moduleId !in removed :: grants[g].(granted := grants[g].granted * kept)
  }

  /** Removing a child-closed set of modules, their definitions and their grant rows keeps every table invariant. */
  lemma CascadeKeepsInvariants(modules: map<nat, Module>, perms: map<nat, PermissionDef>, grants: map<nat, Grant>,
                               roles: set<nat>, nextId: nat, removed: set<nat>)
    requires ModulesOk(modules, nextId) && PermsOk(perms, modules, nextId) && CodenameUnique(perms)
    requires GrantsOk(grants, perms, modules, roles, nextId) && OneGrantPerPair(grants)
    requires ChildClosed(modules, removed)
    ensures var modules' := ModulesOutside(modules, removed);
            var perms' := PermsOutside(perms, removed);
            var grants' := GrantsOutside(grants, removed, perms'.Keys);
            && ModulesOk(modules', nextId) && PermsOk(perms', modules', nextId) && CodenameUnique(perms')
            && GrantsOk(grants', perms', modules', roles, nextId) && OneGrantPerPair(grants')
  {
    var modules' := ModulesOutside(modules, removed);
    forall k | k in modules' && modules'[k].parent.Some? ensures modules'[k].parent.value in modules' {
      assert ChildClosed(modules, removed);
    }
  }

  /** The modules whose parent is `x`. */
  function ChildrenOf(modules: map<nat, Module>, x: nat): set<nat> {
    set k | k in modules && modules[k].parent == Some(x)
  }

  /**
   * The state of the worklist search for the subtree of `root`: `d` is what
   * has been found, `work` what is still to be expanded; everything outside
   * `work` has its children in `d`, and `d` lies within every child-closed
   * set holding `root`.
   */
  ghost predicate SubtreeSoFar(modules: map<nat, Module>, root: nat, d: set<nat>, work: set<nat>) {
    && work <= d <= modules.Keys
    && root in d
    && (forall y, k :: y in d - work && k in modules && modules[k].parent == Some(y) ==> k in d)
    && (forall s :: root in s && ChildClosed(modules, s) ==> d <= s)
  }

  lemma SubtreeStep(modules: map<nat, Module>, root: nat, d: set<nat>, work: set<nat>, x: nat, found: set<nat>)
    requires SubtreeSoFar(modules, root, d, work) && x in work
    requires found == ChildrenOf(modules, x) - d
    ensures SubtreeSoFar(modules, root, d + found, (work - {x}) + found)
    ensures || |modules.Keys - (d + found)| < |modules.Keys - d|
            || (d + found == d && |(work - {x}) + found| < |work|)
  {
    forall s | root in s && ChildClosed(modules, s) ensures d + found <= s {
      assert x in s;
    }
    if found != {} {
      assert modules.Keys - (d + found) < modules.Keys - d;
    }
  }

  /** What `Subtree` computes satisfies its loop's exit condition: the search has nothing left to expand. */
  lemma SubtreeDone(modules: map<nat, Module>, root: nat, d: set<nat>)
    requires SubtreeSoFar(modules, root, d, {})
    ensures IsSubtree(modules, root, d)
  {
  }

  /** A subtree holds only the root and modules whose parent is in it. */
  lemma SubtreeOnlyDescendants(modules: map<nat, Module>, root: nat, d: set<nat>)
    requires IsSubtree(modules, root, d)
    ensures forall k :: k in d ==> k == root || (modules[k].parent.Some? && modules[k].parent.value in d)
  {
    var s := set k | k in d && (k == root || (modules[k].parent.Some? && modules[k].parent.value in d));
    assert ChildClosed(modules, s);
    assert d <= s;
  }

  /** There is only one subtree per root. */
  lemma SubtreeUnique(modules: map<nat, Module>, root: nat, d1: set<nat>, d2: set<nat>)
    requires IsSubtree(modules, root, d1) && IsSubtree(modules, root, d2)
    ensures d1 == d2
  {
    assert d1 <= d2;
    assert d2 <= d1;
  }

  /** The database. Ids are drawn from one counter. */
  class Store {
    var modules: map<nat, Module>
    var perms: map<nat, PermissionDef>
    var grants: map<nat, Grant>
    var roles: set<nat>
    var nextId: nat

    ghost predicate Valid()
      reads this
    {
      && ModulesOk(modules, nextId)
      && PermsOk(perms, modules, nextId)
      && CodenameUnique(perms)
      && GrantsOk(grants, perms, modules, roles, nextId)
      && OneGrantPerPair(grants)
      && (forall r :: r in roles ==> r < nextId)
    }

    constructor ()
      ensures Valid()
      ensures modules == map[] && perms == map[] && grants == map[] && roles == {}
    {
      modules, perms, grants, roles, nextId := map[], map[], map[], {}, 0;
    }

    /** A new role row (the roles table belongs to the roles app; only its ids matter here). */
    method AddRole() returns (id: nat)
      requires Valid()
      modifies this
      ensures Valid()
      ensures id !in old(roles) && roles == old(roles) + {id}
      ensures modules == old(modules) && perms == old(perms) && grants == old(grants)
    {
      id := nextId;
      roles := roles + {id};
      nextId := nextId + 1;
    }

    /** Inserts a module; a parent id that names no module violates the foreign key. */
    method InsertModule(m: Module) returns (r: Result<nat, StoreError>)
      requires Valid()
      modifies this
      ensures Valid()
      ensures r.Err? <==> m.parent.Some? && m.parent.value !in old(modules)
      ensures r.Err? ==> r.error == IntegrityError && modules == old(modules)
      ensures r.Ok? ==> r.value !in old(modules) && modules == old(modules)[r.value := m]
      ensures perms == old(perms) && grants == old(grants) && roles == old(roles)
    {
      if m.parent.Some? && m.parent.value !in modules {
        return Err(IntegrityError);
      }
      var id := nextId;
      modules := modules[id := m];
      nextId := nextId + 1;
      return Ok(id);
    }

    /** Overwrites a module's fields; its id, definitions and grants stay. */
    method UpdateModule(id: nat, m: Module) returns (r: Result<nat, StoreError>)
      requires Valid()
      modifies this
      ensures Valid()
      ensures id !in old(modules) ==> r == Err(NotFound) && modules == old(modules)
      ensures id in old(modules) && m.parent.Some? && m.parent.value !in old(modules) ==>
        r == Err(IntegrityError) && modules == old(modules)
      ensures r.Ok? <==> id in old(modules) && (m.parent.Some? ==> m.parent.value in old(modules))
      ensures r.Ok? ==> r.value == id && modules == old(modules)[id := m]
      ensures perms == old(perms) && grants == old(grants) && roles == old(roles)
    {
      if id !in modules {
        return Err(NotFound);
      }
      if m.parent.Some? && m.parent.value !in modules {
        return Err(IntegrityError);
      }
      modules := modules[id := m];
      return Ok(id);
    }

    /** The id of the definition of `codename` on `module`, if there is one. */
    method FindPermission(moduleId: nat, codename: string) returns (r: Option<nat>)
      requires Valid()
      ensures r.Some? ==> r.value in perms && perms[r.value].moduleId == moduleId && perms[r.value].codename == codename
      ensures r.None? ==> forall p :: p in perms ==> !(perms[p].moduleId == moduleId && perms[p].codename == codename)
    {
      if p :| p in perms && perms[p].moduleId == moduleId && perms[p].codename == codename {
        r := Some(p);
      } else {
        r := None;
      }
    }

    /** Inserts a definition; a missing module or a repeated codename on the module is refused. */
    method InsertPermission(d: PermissionDef) returns (r: Result<nat, StoreError>)
      requires Valid()
      modifies this
      ensures Valid()
      ensures r.Err? <==>
        d.moduleId !in old(modules) ||
        exists p :: p in old(perms) && old(perms)[p].moduleId == d.moduleId && old(perms)[p].codename == d.codename
      ensures r.Err? ==> r.error == IntegrityError && perms == old(perms)
      ensures r.Ok? ==> r.value !in old(perms) && perms == old(perms)[r.value := d]
      ensures modules == old(modules) && grants == old(grants) && roles == old(roles)
    {
      if d.moduleId !in modules {
        return Err(IntegrityError);
      }
      var existing := FindPermission(d.moduleId, d.codename);
      if existing.Some? {
        return Err(IntegrityError);
      }
      var id := nextId;
      perms := perms[id := d];
      nextId := nextId + 1;
      return Ok(id);
    }

    /** Overwrites the label, category and order of an existing definition. */
    method UpdatePermissionFields(id: nat, title: string, category: string, order: int)
      requires Valid() && id in perms
      modifies this
      ensures Valid()
      ensures perms == old(perms)[id := old(perms)[id].(title := title, category := category, order := order)]
      ensures modules == old(modules) && grants == old(grants) && roles == old(roles)
    {
      perms := perms[id := perms[id].(title := title, category := category, order := order)];
    }

    /**
     * Django's `update_or_create(module=…, codename=…, defaults=…)`: overwrites
     * the definition of `codename` on the module if there is one, keeping its
     * id, and inserts it otherwise.
     */
    method UpdateOrCreate(moduleId: nat, codename: string, title: string, category: string, order: int)
      returns (id: nat)
      requires Valid() && moduleId in modules
      modifies this
      ensures Valid()
      ensures id in perms && perms[id] == PermissionDef(moduleId, codename, title, category, order)
      ensures id in old(perms) ==> old(perms)[id].moduleId == moduleId && old(perms)[id].codename == codename
      ensures id !in old(perms) ==>
        forall p :: p in old(perms) ==> !(old(perms)[p].moduleId == moduleId && old(perms)[p].codename == codename)
      ensures forall p :: p in perms && p != id ==> p in old(perms) && perms[p] == old(perms)[p]
      ensures old(perms).Keys <= perms.Keys
      ensures modules == old(modules) && grants == old(grants) && roles == old(roles)
    {
      var existing := FindPermission(moduleId, codename);
      if existing.Some? {
        id := existing.value;
        UpdatePermissionFields(id, title, category, order);
      } else {
        var r := InsertPermission(PermissionDef(moduleId, codename, title, category, order));
        id := r.value;
      }
    }

    /** Inserts a grant row; a second row for the same role and module is refused. */
    method InsertGrant(role: nat, moduleId: nat, granted: set<nat>) returns (r: Result<nat, StoreError>)
      requires Valid()
      modifies this
      ensures Valid()
      ensures r.Err? <==>
        role !in old(roles) || moduleId !in old(modules) || !(granted <= old(perms).Keys) ||
        exists g :: g in old(grants) && old(grants)[g].role == role && old(grants)[g].moduleId == moduleId
      ensures r.Err? ==> r.error == IntegrityError && grants == old(grants)
      ensures r.Ok? ==> r.value !in old(grants) && grants == old(grants)[r.value := Grant(role, moduleId, granted)]
      ensures modules == old(modules) && perms == old(perms) && roles == old(roles)
    {
      if role !in roles || moduleId !in modules || !(granted <= perms.Keys) {
        return Err(IntegrityError);
      }
      if g :| g in grants && grants[g].role == role && grants[g].moduleId == moduleId {
        return Err(IntegrityError);
      }
      var id := nextId;
      grants := grants[id := Grant(role, moduleId, granted)];
      nextId := nextId + 1;
      return Ok(id);
    }

    /**
     * The modules a delete of `root` removes: `root` and, through the parent
     * key's cascade, every module below it.
     */
    method Subtree(root: nat) returns (d: set<nat>)
      requires Valid() && root in modules
      ensures IsSubtree(modules, root, d)
    {
      d := {root};
      var work := {root};
      while work != {}
        invariant SubtreeSoFar(modules, root, d, work)
        decreases |modules.Keys - d|, |work|
      {
        var x :| x in work;
        var found := ChildrenOf(modules, x) - d;
        SubtreeStep(modules, root, d, work, x, found);
        d, work := d + found, (work - {x}) + found;
      }
      SubtreeDone(modules, root, d);
    }

    /**
     * Deletes a module. The cascade removes the modules below it, the
     * definitions of every removed module, the grant rows on every removed
     * module, and the removed definitions from the remaining grants.
     */
    method DeleteModule(id: nat) returns (found: bool, removed: set<nat>)
      requires Valid()
      modifies this
      ensures Valid()
      ensures found <==> id in old(modules)
      ensures !found ==> removed == {}
      ensures found ==> IsSubtree(old(modules), id, removed)
      ensures modules == ModulesOutside(old(modules), removed)
      ensures perms == PermsOutside(old(perms), removed)
      ensures grants == GrantsOutside(old(grants), removed, perms.Keys)
      ensures roles == old(roles)
    {
      if id !in modules {
        found, removed := false, {};
      } else {
        found := true;
        removed := Subtree(id);
      }
      CascadeKeepsInvariants(modules, perms, grants, roles, nextId, removed);
      var perms' := PermsOutside(perms, removed);
      modules, perms, grants := ModulesOutside(modules, removed), perms', GrantsOutside(grants, removed, perms'.Keys);
    }

    /** Deletes a role and its grant rows; other roles' rows stay as they were. */
    method DeleteRole(id: nat) returns (found: bool)
      requires Valid()
      modifies this
      ensures Valid()
      ensures found <==> id in old(roles)
      ensures roles == old(roles) - {id}
      ensures grants == map g | g in old(grants) && old(grants)[g].role != id :: old(grants)[g]
      ensures modules == old(modules) && perms == old(perms)
    {
      found := id in roles;
      roles := roles - {id};
      grants := map g | g in grants && grants[g].role != id :: grants[g];
    }

    /**
     * Deletes permission definitions. They disappear from every grant's
     * granted set; the grant rows themselves stay.
     */
    method DeletePermissions(ids: set<nat>)
      requires Valid()
      modifies this
      ensures Valid()
      ensures perms == map p | p in old(perms) && p !in ids :: old(perms)[p]
      ensures grants.Keys == old(grants).Keys
      ensures forall g :: g in grants ==> grants[g] == old(grants)[g].(granted := old(grants)[g].granted - ids)
      ensures modules == old(modules) && roles == old(roles)
    {
      perms := map p | p in perms && p !in ids :: perms[p];
      grants := map g | g in grants :: grants[g].(granted := grants[g].granted - ids);
    }
  }
}
