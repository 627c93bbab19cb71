/** `UsersRepository`: query construction for the user listing and the
    point lookups and writes on the user table. */
module UsersRepository {
  import opened Wrappers
  import opened Text
  import opened Schema
  import opened Ordering
  import opened Collections
  import opened ListUsersDto
  import Paginate
  import Listing
  import Store

  /** The options `findAllPaginated` accepts. */
  datatype ListOptions = ListOptions(
    page: Option<int>,
    limit: Option<int>,
    search: Option<string>,
    sortBy: Option<UserSortField>,
    sortOrder: Option<Direction>,
    route: Option<string>)

  /** One conjunct of the `where` filter. */
  datatype Condition = DeletedAtNull | NameContains(term: string) | EmailContains(term: string)

  datatype OrderBy = OrderBy(field: UserSortField, direction: Direction)

  /** What `getQuery` returns: the coerced page and limit, the conjunctive
      `where` and the optional `orderBy`. */
  datatype Query = Query(page: int, limit: int, where: seq<Condition>, orderBy: Option<OrderBy>)

  predicate Holds(c: Condition, u: User) {
    match c
    case DeletedAtNull => u.deletedAt.None?
    case NameContains(t) => Contains(u.name, t)
    case EmailContains(t) => Contains(u.email, t)
  }

  /** A row satisfies a `where` when it satisfies every conjunct. */
  predicate Matches(where: seq<Condition>, u: User) {
    forall i :: 0 <= i < |where| ==> Holds(where[i], u)
  }

  /** The rows the listing shows, stated directly: not soft-deleted and, under
      a search, containing the term in both the name and the email. */
  predicate Listed(u: User, search: Option<string>) {
    && u.deletedAt.None?
    && (Truthy(search) ==> Contains(u.name, search.value) && Contains(u.email, search.value))
  }

  /** `getQuery`. */
  function GetQuery(options: ListOptions): (q: Query)
    ensures q.page == options.page.GetOr(1) && q.limit == options.limit.GetOr(10)
    ensures forall u :: Matches(q.where, u) <==> Listed(u, options.search)
    ensures q.orderBy.Some? <==> options.sortBy.Some?
    ensures q.orderBy.Some? ==> q.orderBy.value == OrderBy(options.sortBy.value, options.sortOrder.GetOr(Desc))
  {
    var search :=
      if Truthy(options.search) then [NameContains(options.search.value), EmailContains(options.search.value)]
      else [];
    var where := [DeletedAtNull] + search;
    assert forall u :: Matches(where, u) <==> Holds(where[0], u) && (|where| > 1 ==> Holds(where[1], u) && Holds(where[2], u));
    Query(
      options.page.GetOr(1),
      options.limit.GetOr(10),
      where,
      if options.sortBy.Some? then Some(OrderBy(options.sortBy.value, options.sortOrder.GetOr(Desc))) else None)
  }

  /** A search keeps a row only when BOTH fields contain the term: a user whose
      name matches but whose email does not is not listed. */
  lemma SearchIsConjunctive()
    ensures
      var u := User(1, "ann", None, "bob@host.org", None, "h", 0, 0, None);
      var q := GetQuery(ListOptions(None, None, Some("ann"), None, None, None));
      Contains(u.name, "ann") && !Matches(q.where, u)
  {
    var u := User(1, "ann", None, "bob@host.org", None, "h", 0, 0, None);
    assert OccursAt(u.name, "ann", 0);
    assert 'a' !in u.email;
    MissingHeadNotContained(u.email, "ann");
    assert !Listed(u, Some("ann"));
  }

  /** The column a sort on `field` reads. */
  function SortKeyOf(field: UserSortField): User -> SortKey {
    match field
    case Name => (u: User) => Text(u.name)
    case Email => (u: User) => Text(u.email)
    case CreatedAt => (u: User) => Number(u.createdAt)
    case UpdatedAt => (u: User) => Number(u.updatedAt)
  }

  /** The ordering an `orderBy` asks for. */
  function OrderOf(orderBy: Option<OrderBy>): Option<Listing.Order<User>> {
    match orderBy
    case None => None
    case Some(o) => Some(Listing.Order(SortKeyOf(o.field), o.direction))
  }

  /** The ordering the options ask for: the sorted column, descending unless
      told otherwise; none without a sort field. */
  function RequestedOrder(sortBy: Option<UserSortField>, sortOrder: Option<Direction>): Option<Listing.Order<User>> {
    if sortBy.Some? then Some(Listing.Order(SortKeyOf(sortBy.value), sortOrder.GetOr(Desc))) else None
  }

  /** The rows a listing shows, in the order it asks for. */
  function Selection(table: Table<User>, search: Option<string>, sortBy: Option<UserSortField>, sortOrder: Option<Direction>): seq<User> {
    Listing.Select(table.rows, (u: User) => Listed(u, search), RequestedOrder(sortBy, sortOrder))
  }

  /** The engine options the listing runs with: page 1 and limit 10 unless given. */
  function PageOptions(options: ListOptions): Paginate.PaginationOptions {
    Paginate.PaginationOptions(Some(options.page.GetOr(1)), Some(options.limit.GetOr(10)), options.route)
  }

  /** `findAllPaginated`: one `where` serves both the count and the fetch, so
      the page is the window of the listed rows at the served page. */
  function FindAllPaginated(table: Table<User>, options: ListOptions, requestUrl: Option<string>): (r: Paginate.PaginationResult<User>)
    ensures Paginate.Serves(r, Selection(table, options.search, options.sortBy, options.sortOrder), PageOptions(options), requestUrl)
    ensures r.meta.totalItems == |Filter(table.rows, (u: User) => Listed(u, options.search))|
    ensures forall i :: 0 <= i < |r.data| ==> r.data[i] in table.rows && Listed(r.data[i], options.search)
    ensures options.sortBy.Some? ==> Sorted(r.data, SortKeyOf(options.sortBy.value), options.sortOrder.GetOr(Desc))
    ensures options.limit.GetOr(10) != 0 ==> r.meta.itemsPerPage == options.limit.GetOr(10)
    ensures r.links.first.Some? <==>
      r.meta.totalItems > 0 && Paginate.HasRoute(if options.route.Some? then options.route else requestUrl)
  {
    var q := GetQuery(options);
    var keep := (u: User) => Matches(q.where, u);
    FilterExtensional(table.rows, keep, (u: User) => Listed(u, options.search));
    assert OrderOf(q.orderBy) == RequestedOrder(options.sortBy, options.sortOrder);
    assert Listing.Select(table.rows, keep, OrderOf(q.orderBy)) == Selection(table, options.search, options.sortBy, options.sortOrder);
    Listing.ListPage(table.rows, keep, OrderOf(q.orderBy), Paginate.PaginationOptions(Some(q.page), Some(q.limit), options.route), requestUrl)
  }

  /** `findById`: the first row with this id that is not soft-deleted. */
  function FindById(table: Table<User>, id: int): (r: Option<User>)
    ensures r.Some? ==> r.value in table.rows && r.value.id == id && r.value.deletedAt.None?
    ensures r.None? <==> forall i :: 0 <= i < |table.rows| ==> table.rows[i].id != id || table.rows[i].deletedAt.Some?
  {
    FirstMatch(table.rows, (u: User) => u.id == id && u.deletedAt.None?)
  }

  /** `findByEmail`: the first row with this email that is not soft-deleted. */
  function FindByEmail(table: Table<User>, email: string): (r: Option<User>)
    ensures r.Some? ==> r.value in table.rows && r.value.email == email && r.value.deletedAt.None?
    ensures r.None? <==> forall i :: 0 <= i < |table.rows| ==> table.rows[i].email != email || table.rows[i].deletedAt.Some?
  {
    FirstMatch(table.rows, (u: User) => u.email == email && u.deletedAt.None?)
  }

  /** The data `create` writes; `password` is already hashed by the caller. */
  datatype NewUser = NewUser(name: string, avatar: Option<string>, email: string, username: Option<string>, password: string)

  /** `create`: appends one row under the next id, stamped `now`, not deleted. */
  function Create(table: Table<User>, data: NewUser, now: int): (r: (Table<User>, User))
    ensures r.0.rows == table.rows + [r.1] && r.0.nextId == table.nextId + 1
    ensures r.1.id == table.nextId && r.1.deletedAt.None?
    ensures r.1.name == data.name && r.1.avatar == data.avatar && r.1.email == data.email
    ensures r.1.username == data.username && r.1.password == data.password
    ensures IdsWellFormed(table, UserId) ==> IdsWellFormed(r.0, UserId)
  {
    var row := User(table.nextId, data.name, data.avatar, data.email, data.username, data.password, now, now, None);
    (Append(table, row), row)
  }

  /** The fields `update` may write; `None` leaves the column untouched. */
  datatype UserPatch = UserPatch(
    name: Option<string>,
    avatar: Option<string>,
    email: Option<string>,
    username: Option<string>,
    password: Option<string>)

  function ApplyPatch(u: User, patch: UserPatch): (v: User)
    ensures v.id == u.id && v.createdAt == u.createdAt && v.updatedAt == u.updatedAt && v.deletedAt == u.deletedAt
    ensures v.name == patch.name.GetOr(u.name) && v.email == patch.email.GetOr(u.email) && v.password == patch.password.GetOr(u.password)
    ensures v.avatar == (if patch.avatar.Some? then patch.avatar else u.avatar)
    ensures v.username == (if patch.username.Some? then patch.username else u.username)
  {
    u.(name := patch.name.GetOr(u.name),
       avatar := if patch.avatar.Some? then patch.avatar else u.avatar,
       email := patch.email.GetOr(u.email),
       username := if patch.username.Some? then patch.username else u.username,
       password := patch.password.GetOr(u.password))
  }

  /** `update`: only the row with this id changes, and only in the patched
      columns. */
  function Update(table: Table<User>, id: int, patch: UserPatch): (r: Result<(Table<User>, User)>)
    ensures r.Failure? <==> forall i :: 0 <= i < |table.rows| ==> table.rows[i].id != id
    ensures r.Success? ==>
      && |r.value.0.rows| == |table.rows|
      && (forall i :: 0 <= i < |table.rows| && table.rows[i].id != id ==> r.value.0.rows[i] == table.rows[i])
      && (forall i :: 0 <= i < |table.rows| && table.rows[i].id == id ==> r.value.0.rows[i] == ApplyPatch(table.rows[i], patch))
  {
    Store.UpdateById(table, UserId, id, (u: User) => ApplyPatch(u, patch))
  }

  /** `delete`: a soft delete. The row stays; only its `deletedAt` is set. */
  function Delete(table: Table<User>, id: int, now: int): (r: Result<(Table<User>, User)>)
    ensures r.Failure? <==> forall i :: 0 <= i < |table.rows| ==> table.rows[i].id != id
    ensures r.Success? ==>
      && |r.value.0.rows| == |table.rows|
      && (forall i :: 0 <= i < |table.rows| && table.rows[i].id != id ==> r.value.0.rows[i] == table.rows[i])
      && (forall i :: 0 <= i < |table.rows| && table.rows[i].id == id ==> r.value.0.rows[i] == table.rows[i].(deletedAt := Some(now)))
  {
    Store.UpdateById(table, UserId, id, (u: User) => u.(deletedAt := Some(now)))
  }
}
