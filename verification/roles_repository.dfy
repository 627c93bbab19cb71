/** `RolesRepository`: the role listing and the point lookups and writes on
    the role table. Roles have no soft delete. */
module RolesRepository {
  import opened Wrappers
  import opened Text
  import opened Schema
  import opened Ordering
  import opened Collections
  import opened ListRolesDto
  import Paginate
  import Listing
  import Store

  /** The options `findAllPaginated` accepts. */
  datatype ListOptions = ListOptions(
    page: Option<int>,
    limit: Option<int>,
    search: Option<string>,
    sortBy: Option<RoleSortField>,
    sortOrder: Option<Direction>,
    route: Option<string>)

  /** One conjunct of the `AND` filter. */
  datatype Condition = NameContains(term: string) | SlugContains(term: string)

  datatype OrderBy = OrderBy(field: RoleSortField, direction: Direction)

  /** What `getQuery` returns. An absent `AND` is the empty conjunction. */
  datatype Query = Query(page: int, limit: int, where: seq<Condition>, orderBy: Option<OrderBy>)

  predicate Holds(c: Condition, r: Role) {
    match c
    case NameContains(t) => Contains(r.name, t)
    case SlugContains(t) => Contains(r.slug, t)
  }

  predicate Matches(where: seq<Condition>, r: Role) {
    forall i :: 0 <= i < |where| ==> Holds(where[i], r)
  }

  /** The rows the listing shows, stated directly: every role, or under a
      search those whose name and slug both contain the term. */
  predicate Listed(r: Role, search: Option<string>) {
    Truthy(search) ==> Contains(r.name, search.value) && Contains(r.slug, search.value)
  }

  /** `getQuery`. */
  function GetQuery(options: ListOptions): (q: Query)
    ensures q.page == options.page.GetOr(1) && q.limit == options.limit.GetOr(10)
    ensures forall r :: Matches(q.where, r) <==> Listed(r, options.search)
    ensures q.orderBy.Some? <==> options.sortBy.Some?
    ensures q.orderBy.Some? ==> q.orderBy.value == OrderBy(options.sortBy.value, options.sortOrder.GetOr(Desc))
  {
    var where :=
      if Truthy(options.search) then [NameContains(options.search.value), SlugContains(options.search.value)]
      else [];
    assert forall r :: Matches(where, r) <==> (|where| > 0 ==> Holds(where[0], r) && Holds(where[1], r));
    Query(
      options.page.GetOr(1),
      options.limit.GetOr(10),
      where,
      if options.sortBy.Some? then Some(OrderBy(options.sortBy.value, options.sortOrder.GetOr(Desc))) else None)
  }

  /** Without a search term every role is listed, whatever its fields. */
  lemma NoSearchListsAll(table: Table<Role>, options: ListOptions)
    requires !Truthy(options.search)
    ensures Filter(table.rows, (r: Role) => Matches(GetQuery(options).where, r)) == table.rows
  {
    FilterAll(table.rows, (r: Role) => Matches(GetQuery(options).where, r));
  }

  /** The column a sort on `field` reads. */
  function SortKeyOf(field: RoleSortField): Role -> SortKey {
    match field
    case Name => (r: Role) => Text(r.name)
    case Slug => (r: Role) => Text(r.slug)
    case CreatedAt => (r: Role) => Number(r.createdAt)
    case UpdatedAt => (r: Role) => Number(r.updatedAt)
  }

  function OrderOf(orderBy: Option<OrderBy>): Option<Listing.Order<Role>> {
    match orderBy
    case None => None
    case Some(o) => Some(Listing.Order(SortKeyOf(o.field), o.direction))
  }

  /** The ordering the options ask for: the sorted column, descending unless
      told otherwise; none without a sort field. */
  function RequestedOrder(sortBy: Option<RoleSortField>, sortOrder: Option<Direction>): Option<Listing.Order<Role>> {
    if sortBy.Some? then Some(Listing.Order(SortKeyOf(sortBy.value), sortOrder.GetOr(Desc))) else None
  }

  /** The rows a listing shows, in the order it asks for. */
  function Selection(table: Table<Role>, search: Option<string>, sortBy: Option<RoleSortField>, sortOrder: Option<Direction>): seq<Role> {
    Listing.Select(table.rows, (x: Role) => Listed(x, search), RequestedOrder(sortBy, sortOrder))
  }

  /** The engine options the listing runs with: page 1 and limit 10 unless given. */
  function PageOptions(options: ListOptions): Paginate.PaginationOptions {
    Paginate.PaginationOptions(Some(options.page.GetOr(1)), Some(options.limit.GetOr(10)), options.route)
  }

  /** `findAllPaginated`: one filter serves both the count and the fetch, so
      the page is the window of the listed rows at the served page. */
  function FindAllPaginated(table: Table<Role>, options: ListOptions, requestUrl: Option<string>): (r: Paginate.PaginationResult<Role>)
    ensures Paginate.Serves(r, Selection(table, options.search, options.sortBy, options.sortOrder), PageOptions(options), requestUrl)
    ensures r.meta.totalItems == |Filter(table.rows, (x: Role) => Listed(x, options.search))|
    ensures forall i :: 0 <= i < |r.data| ==> r.data[i] in table.rows && Listed(r.data[i], options.search)
    ensures options.sortBy.Some? ==> Sorted(r.data, SortKeyOf(options.sortBy.value), options.sortOrder.GetOr(Desc))
    ensures options.limit.GetOr(10) != 0 ==> r.meta.itemsPerPage == options.limit.GetOr(10)
    ensures r.links.first.Some? <==>
      r.meta.totalItems > 0 && Paginate.HasRoute(if options.route.Some? then options.route else requestUrl)
  {
    var q := GetQuery(options);
    var keep := (x: Role) => Matches(q.where, x);
    FilterExtensional(table.rows, keep, (x: Role) => Listed(x, options.search));
    assert OrderOf(q.orderBy) == RequestedOrder(options.sortBy, options.sortOrder);
    assert Listing.Select(table.rows, keep, OrderOf(q.orderBy)) == Selection(table, options.search, options.sortBy, options.sortOrder);
    Listing.ListPage(table.rows, keep, OrderOf(q.orderBy), Paginate.PaginationOptions(Some(q.page), Some(q.limit), options.route), requestUrl)
  }

  /** `find`: the first row with this id. */
  function Find(table: Table<Role>, id: int): (r: Option<Role>)
    ensures r.Some? ==> r.value in table.rows && r.value.id == id
    ensures r.None? <==> forall i :: 0 <= i < |table.rows| ==> table.rows[i].id != id
  {
    FirstMatch(table.rows, (x: Role) => x.id == id)
  }

  /** The data `create` writes (`CreateRoleDto`). */
  datatype NewRole = NewRole(name: string, slug: string, description: string)

  /** `create`: appends one row under the next id, stamped `now`. */
  function Create(table: Table<Role>, data: NewRole, now: int): (r: (Table<Role>, Role))
    ensures r.0.rows == table.rows + [r.1] && r.0.nextId == table.nextId + 1
    ensures r.1.id == table.nextId
    ensures r.1.name == data.name && r.1.slug == data.slug && r.1.description == data.description
    ensures IdsWellFormed(table, RoleId) ==> IdsWellFormed(r.0, RoleId)
  {
    var row := Role(table.nextId, data.name, data.slug, data.description, now, now);
    (Append(table, row), row)
  }

  /** The fields `update` may write; `None` leaves the column untouched. */
  datatype RolePatch = RolePatch(name: Option<string>, slug: Option<string>, description: Option<string>)

  function ApplyPatch(r: Role, patch: RolePatch): (v: Role)
    ensures v.id == r.id && v.createdAt == r.createdAt && v.updatedAt == r.updatedAt
    ensures v.name == patch.name.GetOr(r.name) && v.slug == patch.slug.GetOr(r.slug)
    ensures v.description == patch.description.GetOr(r.description)
  {
    r.(name := patch.name.GetOr(r.name), slug := patch.slug.GetOr(r.slug), description := patch.description.GetOr(r.description))
  }

  /** `update`: only the row with this id changes, and only in the patched
      columns; RecordMissing when there is no such row. */
  function Update(table: Table<Role>, id: int, patch: RolePatch): (r: Result<(Table<Role>, Role)>)
    ensures r.Failure? <==> Find(table, id).None?
    ensures r.Failure? ==> r.error == RecordMissing
    ensures r.Success? ==>
      && r.value.0.nextId == table.nextId
      && |r.value.0.rows| == |table.rows|
      && (forall i :: 0 <= i < |table.rows| && table.rows[i].id != id ==> r.value.0.rows[i] == table.rows[i])
      && (forall i :: 0 <= i < |table.rows| && table.rows[i].id == id ==> r.value.0.rows[i] == ApplyPatch(table.rows[i], patch))
  {
    Store.UpdateById(table, RoleId, id, (x: Role) => ApplyPatch(x, patch))
  }

  /** `delete`: a hard delete. The row is gone; every other row stays. */
  function Delete(table: Table<Role>, id: int): (r: Result<(Table<Role>, Role)>)
    ensures r.Failure? <==> Find(table, id).None?
    ensures r.Failure? ==> r.error == RecordMissing
    ensures r.Success? ==>
      && r.value.0.nextId == table.nextId
      && r.value.0.rows == Filter(table.rows, (x: Role) => x.id != id)
      && r.value.1 in table.rows && r.value.1.id == id
  {
    FilterExtensional(table.rows, Store.KeyIsNot(RoleId, id), (x: Role) => x.id != id);
    Store.DeleteById(table, RoleId, id)
  }
}
