/** `RolesService`: existence checks in front of the role repository. Update
    and delete look the role up first, so a missing id is NotFound and never
    reaches the store. */
module RolesService {
  import opened Wrappers
  import opened Schema
  import opened Ordering
  import opened Collections
  import opened ListQuery
  import opened ListRolesDto
  import Repo = RolesRepository
  import Paginate

  /** `CreateRoleDto` after validation. */
  datatype CreateRoleData = CreateRoleData(name: string, slug: string, description: string)

  /** `UpdateRoleDto` after validation; `None` is an absent or null field. */
  datatype UpdateRoleData = UpdateRoleData(name: Option<string>, slug: Option<string>, description: Option<string>)

  /** `getAllPaginated`: page 1 and limit 10 unless given; no route is
      passed, so the links are built on the request URL. */
  function GetAllPaginated(table: Table<Role>, query: ListQuery<RoleSortField>, requestUrl: Option<string>): (r: Paginate.PaginationResult<Role>)
    ensures Paginate.Serves(r, Repo.Selection(table, query.search, query.sortBy, query.sortOrder), Paginate.PaginationOptions(Some(query.page.GetOr(1)), Some(query.limit.GetOr(10)), None), requestUrl)
    ensures query.page.None? ==> r.meta.currentPage == 1
    ensures query.limit.GetOr(10) != 0 ==> r.meta.itemsPerPage == query.limit.GetOr(10)
    ensures r.meta.totalItems == |Filter(table.rows, (x: Role) => Repo.Listed(x, query.search))|
    ensures forall i :: 0 <= i < |r.data| ==> r.data[i] in table.rows && Repo.Listed(r.data[i], query.search)
    ensures query.sortBy.Some? ==> Sorted(r.data, Repo.SortKeyOf(query.sortBy.value), query.sortOrder.GetOr(Desc))
    ensures r.links.first.Some? <==> r.meta.totalItems > 0 && Paginate.HasRoute(requestUrl)
  {
    Repo.FindAllPaginated(
      table,
      Repo.ListOptions(Some(query.page.GetOr(1)), Some(query.limit.GetOr(10)), query.search, query.sortBy, query.sortOrder, None),
      requestUrl)
  }

  /** `getById`: the role, or NotFound. */
  function GetById(table: Table<Role>, id: int): (r: Result<Role>)
    ensures r.Success? ==> r.value in table.rows && r.value.id == id
    ensures r.Failure? <==> forall i :: 0 <= i < |table.rows| ==> table.rows[i].id != id
    ensures r.Failure? ==> r.error == NotFound
  {
    match Repo.Find(table, id)
    case None => Failure(NotFound)
    case Some(role) => Success(role)
  }

  /** `create`: the three fields are passed through unchanged. */
  function Create(table: Table<Role>, data: CreateRoleData, now: int): (r: (Table<Role>, Role))
    ensures r.0.rows == table.rows + [r.1] && r.0.nextId == table.nextId + 1
    ensures r.1.id == table.nextId
    ensures r.1.name == data.name && r.1.slug == data.slug && r.1.description == data.description
  {
    Repo.Create(table, Repo.NewRole(data.name, data.slug, data.description), now)
  }

  /** `update`: NotFound for a missing id; otherwise only that row changes,
      and only in the fields given. */
  function Update(table: Table<Role>, id: int, data: UpdateRoleData): (r: Result<(Table<Role>, Role)>)
    ensures r.Failure? <==> GetById(table, id).Failure?
    ensures r.Failure? ==> r.error == NotFound
    ensures r.Success? ==>
      && |r.value.0.rows| == |table.rows|
      && (forall i :: 0 <= i < |table.rows| && table.rows[i].id != id ==> r.value.0.rows[i] == table.rows[i])
      && (forall i :: 0 <= i < |table.rows| && table.rows[i].id == id ==>
            var (was, now) := (table.rows[i], r.value.0.rows[i]);
            && now.id == id
            && now.name == data.name.GetOr(was.name)
            && now.slug == data.slug.GetOr(was.slug)
            && now.description == data.description.GetOr(was.description))
  {
    var _ :- GetById(table, id);
    match Repo.Update(table, id, Repo.RolePatch(data.name, data.slug, data.description))
    case Success(v) => Success(v)
    case Failure(e) => Failure(e)
  }

  /** `delete`: NotFound for a missing id; otherwise the row is removed. */
  function Delete(table: Table<Role>, id: int): (r: Result<Table<Role>>)
    ensures r.Failure? <==> GetById(table, id).Failure?
    ensures r.Failure? ==> r.error == NotFound
    ensures r.Success? ==> r.value.rows == Filter(table.rows, (x: Role) => x.id != id) && r.value.nextId == table.nextId
  {
    var _ :- GetById(table, id);
    match Repo.Delete(table, id)
    case Success((t, _)) => Success(t)
    case Failure(e) => Failure(e)
  }

  /** After a delete, the same id is NotFound. */
  lemma DeleteThenGetFails(table: Table<Role>, id: int)
    ensures Delete(table, id).Success? ==> GetById(Delete(table, id).value, id) == Failure(NotFound)
  {
  }

  /** A delete leaves every other role exactly as `getById` saw it. */
  lemma {:induction false} DeleteKeepsOthers(table: Table<Role>, id: int, other: int)
    requires other != id
    ensures Delete(table, id).Success? ==> GetById(Delete(table, id).value, other) == GetById(table, other)
  {
    if Delete(table, id).Success? {
      FindAfterFilter(table.rows, id, other);
    }
  }

  lemma {:induction false} FindAfterFilter(rows: seq<Role>, id: int, other: int)
    requires other != id
    ensures FirstMatch(Filter(rows, (x: Role) => x.id != id), (x: Role) => x.id == other) == FirstMatch(rows, (x: Role) => x.id == other)
  {
    if |rows| > 0 {
      FindAfterFilter(rows[1..], id, other);
      var kept := Filter(rows[1..], (x: Role) => x.id != id);
      if rows[0].id != id {
        assert Filter(rows, (x: Role) => x.id != id) == [rows[0]] + kept;
        assert ([rows[0]] + kept)[1..] == kept;
      } else {
        assert Filter(rows, (x: Role) => x.id != id) == kept;
      }
    }
  }

  /** A role just created is found under its new id when ids are well formed. */
  lemma CreateThenGet(table: Table<Role>, data: CreateRoleData, now: int)
    requires IdsWellFormed(table, RoleId)
    ensures GetById(Create(table, data, now).0, table.nextId) == Success(Create(table, data, now).1)
  {
    var (t, role) := Create(table, data, now);
    assert forall i :: 0 <= i < |table.rows| ==> RoleId(table.rows[i]) < table.nextId;
    assert t.rows[|table.rows|] == role;
    assert forall x :: x in t.rows && x.id == table.nextId ==> x == role;
  }
}
