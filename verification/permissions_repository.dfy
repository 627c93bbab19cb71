/** `PermissionsRepository`: lookups on the permission table and the
    permission catalogue grouped by module. */
module PermissionsRepository {
  import opened Wrappers
  import opened Schema
  import opened Ordering
  import opened Collections
  import Listing

  /** The columns the grouping selects from a permission. */
  datatype PermissionView = PermissionView(id: int, name: string, slug: string, description: string)

  /** One module with its permissions (`ModulePermissionsGroup`); `owner` is
      the `module` field, a reserved word here. */
  datatype Group = Group(owner: Module, permissions: seq<PermissionView>)

  function View(p: Permission): (v: PermissionView)
    ensures v.id == p.id && v.name == p.name && v.slug == p.slug && v.description == p.description
  {
    PermissionView(p.id, p.name, p.slug, p.description)
  }

  /** `findById`: the first row with this id. */
  function FindById(table: Table<Permission>, id: int): (r: Option<Permission>)
    ensures r.Some? ==> r.value in table.rows && r.value.id == id
    ensures r.None? <==> forall i :: 0 <= i < |table.rows| ==> table.rows[i].id != id
  {
    FirstMatch(table.rows, (p: Permission) => p.id == id)
  }

  /** `getAll`: every row, in storage order. */
  function GetAll(table: Table<Permission>): (r: seq<Permission>)
    ensures |r| == |table.rows| && forall i :: 0 <= i < |r| ==> r[i] == table.rows[i]
  {
    table.rows
  }

  /** The module owns the permission. */
  predicate Owns(m: Module, p: Permission) {
    p.moduleId == m.id
  }

  /** The module owns at least one permission. */
  predicate HasPermissions(perms: seq<Permission>, m: Module) {
    exists i :: 0 <= i < |perms| && Owns(m, perms[i])
  }

  /** The relation filter `moduleId = m.id`. */
  function OwnedBy(m: Module): Permission -> bool {
    (p: Permission) => Owns(m, p)
  }

  /** The nested `permissions` selection of one module: its own permissions,
      in storage order, projected to the selected columns. */
  function PermissionsOf(perms: seq<Permission>, m: Module): (r: seq<PermissionView>)
    ensures |r| > 0 <==> HasPermissions(perms, m)
    ensures exists idx :: InStorageOrder(r, perms, m, idx)
  {
    var own := Filter(perms, OwnedBy(m));
    OwnedNonempty(perms, m);
    OwnedViews(perms, m);
    Map(own, View)
  }

  /** `r` is the views of the permissions at `idx`, and `idx` lists, in
      increasing order, every position of a permission the module owns. */
  ghost predicate InStorageOrder(r: seq<PermissionView>, perms: seq<Permission>, m: Module, idx: seq<int>) {
    && KeptPositions(perms, OwnedBy(m), idx) && |idx| == |r|
    && forall k :: 0 <= k < |r| ==> r[k] == View(perms[idx[k]])
  }

  lemma OwnedNonempty(perms: seq<Permission>, m: Module)
    ensures |Filter(perms, OwnedBy(m))| > 0 <==> HasPermissions(perms, m)
  {
    var own := Filter(perms, OwnedBy(m));
    if HasPermissions(perms, m) {
      var i :| 0 <= i < |perms| && Owns(m, perms[i]);
      assert OwnedBy(m)(perms[i]);
      assert perms[i] in own;
    }
    if |own| > 0 {
      assert own[0] in perms && OwnedBy(m)(own[0]);
      var j :| 0 <= j < |perms| && perms[j] == own[0];
      assert Owns(m, perms[j]);
    }
  }

  lemma OwnedViews(perms: seq<Permission>, m: Module)
    ensures exists idx :: InStorageOrder(Map(Filter(perms, OwnedBy(m)), View), perms, m, idx)
  {
    var idx := FilterPositions(perms, OwnedBy(m));
    assert InStorageOrder(Map(Filter(perms, OwnedBy(m)), View), perms, m, idx);
  }

  /** The modules of a grouping, in order. */
  function ModulesOf(groups: seq<Group>): (r: seq<Module>)
    ensures |r| == |groups| && forall i :: 0 <= i < |r| ==> r[i] == groups[i].owner
  {
    Map(groups, (g: Group) => g.owner)
  }

  /** The key `orderBy: { order: 'asc' }` reads. */
  function OrderKey(m: Module): SortKey {
    Number(m.order)
  }

  /** The filter `m.permissions.length > 0`. */
  function Nonempty(perms: seq<Permission>): Module -> bool {
    (m: Module) => |PermissionsOf(perms, m)| > 0
  }

  /** The filter stated directly on the permission table. */
  function Owning(perms: seq<Permission>): Module -> bool {
    (m: Module) => HasPermissions(perms, m)
  }

  /** The map `m => ({ module: m, permissions: m.permissions })`. */
  function GroupWith(perms: seq<Permission>): Module -> Group {
    (m: Module) => Group(m, PermissionsOf(perms, m))
  }

  /** What a grouping promises: every group holds exactly its module's
      permissions and at least one, every module is a stored one, and the
      modules ascend by `order`. */
  ghost predicate Grouped(r: seq<Group>, modules: seq<Module>, perms: seq<Permission>) {
    && (forall i :: 0 <= i < |r| ==>
          && |r[i].permissions| > 0
          && r[i].permissions == PermissionsOf(perms, r[i].owner)
          && r[i].owner in modules)
    && (forall i, j :: 0 <= i < j < |r| ==> r[i].owner.order <= r[j].owner.order)
  }

  /** `findGroupedByModule`: modules by ascending `order`, each with its own
      permissions, modules without permissions dropped. */
  function FindGroupedByModule(modules: Table<Module>, perms: Table<Permission>): (r: seq<Group>)
    ensures Grouped(r, modules.rows, perms.rows)
    ensures multiset(ModulesOf(r)) == multiset(Filter(modules.rows, Owning(perms.rows)))
  {
    var kept := Filter(SortBy(modules.rows, OrderKey, Asc), Nonempty(perms.rows));
    KeptModules(modules.rows, perms.rows);
    GroupKept(kept, modules.rows, perms.rows);
    Map(kept, GroupWith(perms.rows))
  }

  /** Pairing each kept module with its permissions gives a grouping. */
  lemma GroupKept(kept: seq<Module>, modules: seq<Module>, perms: seq<Permission>)
    requires forall i :: 0 <= i < |kept| ==> kept[i] in modules && Nonempty(perms)(kept[i])
    requires forall i, j :: 0 <= i < j < |kept| ==> kept[i].order <= kept[j].order
    ensures Grouped(Map(kept, GroupWith(perms)), modules, perms)
    ensures ModulesOf(Map(kept, GroupWith(perms))) == kept
  {
  }

  /** The modules the grouping keeps: stored modules that own a permission,
      each as often as stored, by ascending `order`. */
  lemma KeptModules(modules: seq<Module>, perms: seq<Permission>)
    ensures
      var kept := Filter(SortBy(modules, OrderKey, Asc), Nonempty(perms));
      && (forall i :: 0 <= i < |kept| ==> kept[i] in modules && Nonempty(perms)(kept[i]))
      && (forall i, j :: 0 <= i < j < |kept| ==> kept[i].order <= kept[j].order)
      && multiset(kept) == multiset(Filter(modules, Owning(perms)))
  {
    var ordered := SortBy(modules, OrderKey, Asc);
    KeptSorted(ordered, perms);
    KeptCount(modules, ordered, perms);
  }

  lemma KeptSorted(ordered: seq<Module>, perms: seq<Permission>)
    requires Sorted(ordered, OrderKey, Asc)
    ensures
      var kept := Filter(ordered, Nonempty(perms));
      forall i, j :: 0 <= i < j < |kept| ==> kept[i].order <= kept[j].order
  {
    var kept := Filter(ordered, Nonempty(perms));
    Listing.FilterSorted(ordered, Nonempty(perms), OrderKey, Asc);
    forall i, j | 0 <= i < j < |kept| ensures kept[i].order <= kept[j].order {
      assert InOrder(Asc, OrderKey(kept[i]), OrderKey(kept[j]));
    }
  }

  lemma KeptCount(modules: seq<Module>, ordered: seq<Module>, perms: seq<Permission>)
    requires multiset(ordered) == multiset(modules)
    ensures
      var kept := Filter(ordered, Nonempty(perms));
      && (forall i :: 0 <= i < |kept| ==> kept[i] in modules)
      && multiset(kept) == multiset(Filter(modules, Owning(perms)))
  {
    var kept := Filter(ordered, Nonempty(perms));
    forall i | 0 <= i < |kept| ensures kept[i] in modules {
      assert kept[i] in multiset(ordered);
    }
    FilterPermutation(ordered, modules, Nonempty(perms));
    FilterExtensional(modules, Nonempty(perms), Owning(perms));
  }

  /** Every module that owns a permission appears exactly as often as it is
      stored, and a module that owns none does not appear. */
  lemma GroupedModuleCount(modules: Table<Module>, perms: Table<Permission>, m: Module)
    ensures multiset(ModulesOf(FindGroupedByModule(modules, perms)))[m] ==
      if HasPermissions(perms.rows, m) then multiset(modules.rows)[m] else 0
  {
    FilterCount(modules.rows, Owning(perms.rows), m);
  }

  /** With no permission owned by any stored module, the grouping is empty. */
  lemma NoPermissionsNoGroups(modules: Table<Module>, perms: Table<Permission>)
    requires forall i :: 0 <= i < |modules.rows| ==> !HasPermissions(perms.rows, modules.rows[i])
    ensures FindGroupedByModule(modules, perms) == []
  {
    var r := FindGroupedByModule(modules, perms);
    FilterNone(modules.rows, Owning(perms.rows));
    assert |multiset(ModulesOf(r))| == 0;
  }
}

/** `PermissionsService`: NotFound for a missing id, otherwise the
    repository's answers unchanged. */
module PermissionsService {
  import opened Wrappers
  import opened Schema
  import opened Collections
  import Repo = PermissionsRepository

  function GetAll(table: Table<Permission>): (r: seq<Permission>)
    ensures r == table.rows
  {
    Repo.GetAll(table)
  }

  /** `getPermissionsWithModule`: the repository's grouping, unchanged. */
  function GetPermissionsWithModule(modules: Table<Module>, perms: Table<Permission>): (r: seq<Repo.Group>)
    ensures Repo.Grouped(r, modules.rows, perms.rows)
    ensures multiset(Repo.ModulesOf(r)) == multiset(Filter(modules.rows, Repo.Owning(perms.rows)))
  {
    Repo.FindGroupedByModule(modules, perms)
  }

  /** `getById`: the permission, or NotFound. */
  function GetById(table: Table<Permission>, id: int): (r: Result<Permission>)
    ensures r.Success? <==> Repo.FindById(table, id).Some?
    ensures r.Success? ==> r.value == Repo.FindById(table, id).value && r.value in table.rows && r.value.id == id
    ensures r.Failure? ==> r.error == NotFound
  {
    match Repo.FindById(table, id)
    case None => Failure(NotFound)
    case Some(p) => Success(p)
  }
}
