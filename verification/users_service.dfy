/** `UsersService`: existence checks, the email-uniqueness rule, password
    hashing and soft deletion on top of the user repository. The hash
    function is a parameter (`hash`), the clock is `now`. */
module UsersService {
  import opened Wrappers
  import opened Text
  import opened Schema
  import opened Ordering
  import opened ListQuery
  import opened ListUsersDto
  import Repo = UsersRepository
  import Paginate
  import Collections

  /** `CreateUserDto` after validation. */
  datatype CreateUserData = CreateUserData(
    name: string,
    avatar: Option<string>,
    email: string,
    username: Option<string>,
    password: string)

  /** `UpdateUserDto` after validation; `None` is an absent or null field. */
  datatype UpdateUserData = UpdateUserData(
    name: Option<string>,
    avatar: Option<string>,
    email: Option<string>,
    username: Option<string>,
    password: Option<string>)

  /** The user with this email that blocks reuse of the email, if any. */
  predicate EmailTaken(table: Table<User>, email: string) {
    exists i :: 0 <= i < |table.rows| && table.rows[i].email == email && table.rows[i].deletedAt.None?
  }

  /** No two users that are not soft-deleted share an email. */
  ghost predicate UniqueActiveEmails(table: Table<User>) {
    forall i, j :: 0 <= i < j < |table.rows| && table.rows[i].deletedAt.None? && table.rows[j].deletedAt.None?
      ==> table.rows[i].email != table.rows[j].email
  }

  /** The invariant the service keeps on the user table. */
  ghost predicate Valid(table: Table<User>) {
    IdsWellFormed(table, UserId) && UniqueActiveEmails(table)
  }

  /** `getAllPaginated`: page 1 and limit 10 unless given; search and sort
      are forwarded unchanged, and the links are built on the request URL. */
  function GetAllPaginated(table: Table<User>, query: ListQuery<UserSortField>, requestUrl: Option<string>): (r: Paginate.PaginationResult<User>)
    ensures Paginate.Serves(r, Repo.Selection(table, query.search, query.sortBy, query.sortOrder), Paginate.PaginationOptions(Some(query.page.GetOr(1)), Some(query.limit.GetOr(10)), None), requestUrl)
    ensures query.page.None? ==> r.meta.currentPage == 1
    ensures query.limit.GetOr(10) != 0 ==> r.meta.itemsPerPage == query.limit.GetOr(10)
    ensures r.meta.totalItems == |Collections.Filter(table.rows, (u: User) => Repo.Listed(u, query.search))|
    ensures forall i :: 0 <= i < |r.data| ==> r.data[i] in table.rows && Repo.Listed(r.data[i], query.search)
    ensures query.sortBy.Some? ==> Sorted(r.data, Repo.SortKeyOf(query.sortBy.value), query.sortOrder.GetOr(Desc))
    ensures r.links.first.Some? <==> r.meta.totalItems > 0 && Paginate.HasRoute(requestUrl)
  {
    Repo.FindAllPaginated(
      table,
      Repo.ListOptions(Some(query.page.GetOr(1)), Some(query.limit.GetOr(10)), query.search, query.sortBy, query.sortOrder, None),
      requestUrl)
  }

  /** `findOrFail`: the user, or NotFound for a missing or soft-deleted id. */
  function FindOrFail(table: Table<User>, id: int): (r: Result<User>)
    ensures r.Success? ==> r.value in table.rows && r.value.id == id && r.value.deletedAt.None?
    ensures r.Failure? ==> r.error == NotFound
    ensures r.Failure? <==> forall i :: 0 <= i < |table.rows| ==> table.rows[i].id != id || table.rows[i].deletedAt.Some?
  {
    match Repo.FindById(table, id)
    case None => Failure(NotFound)
    case Some(u) => Success(u)
  }

  /** `findByEmail`: raises NotFound instead of returning null. */
  function FindByEmail(table: Table<User>, email: string): (r: Result<User>)
    ensures r.Success? ==> r.value in table.rows && r.value.email == email && r.value.deletedAt.None?
    ensures r.Failure? <==> !EmailTaken(table, email)
    ensures r.Failure? ==> r.error == NotFound
  {
    match Repo.FindByEmail(table, email)
    case None => Failure(NotFound)
    case Some(u) => Success(u)
  }

  /** `validateEmailUniqueness`: Conflict when a user that is not
      soft-deleted already has the email. */
  function ValidateEmailUniqueness(table: Table<User>, email: string): (r: Result<()>)
    ensures r.Failure? <==> EmailTaken(table, email)
    ensures r.Failure? ==> r.error == Conflict
  {
    if Repo.FindByEmail(table, email).Some? then Failure(Conflict) else Success(())
  }

  /** `create`: checks the email, then stores the user with the hash of the
      password. */
  function Create(table: Table<User>, data: CreateUserData, hash: string -> string, now: int): (r: Result<(Table<User>, User)>)
    ensures r.Failure? <==> EmailTaken(table, data.email)
    ensures r.Failure? ==> r.error == Conflict
    ensures r.Success? ==>
      var (t, u) := r.value;
      && t.rows == table.rows + [u]
      && u.id == table.nextId && u.deletedAt.None?
      && u.name == data.name && u.avatar == data.avatar && u.email == data.email && u.username == data.username
      && u.password == hash(data.password)
  {
    var _ :- ValidateEmailUniqueness(table, data.email);
    var hashed := hash(data.password);
    Success(Repo.Create(table, Repo.NewUser(data.name, data.avatar, data.email, data.username, hashed), now))
  }

  /** The email `update` must check: a truthy email different from the
      current one. */
  predicate ChangesEmail(current: User, data: UpdateUserData) {
    Truthy(data.email) && data.email.value != current.email
  }

  /** The patch `update` hands to the repository: every field as given,
      except that the password is replaced by its hash, and only when truthy. */
  function PatchOf(data: UpdateUserData, hash: string -> string): (p: Repo.UserPatch)
    ensures p.name == data.name && p.avatar == data.avatar && p.email == data.email && p.username == data.username
    ensures p.password.Some? <==> Truthy(data.password)
    ensures p.password.Some? ==> p.password.value == hash(data.password.value)
  {
    Repo.UserPatch(
      data.name, data.avatar, data.email, data.username,
      if Truthy(data.password) then Some(hash(data.password.value)) else None)
  }

  /** `update`: NotFound before anything else, then Conflict for an email
      taken by another user, otherwise a partial update of that row only. */
  function Update(table: Table<User>, id: int, data: UpdateUserData, hash: string -> string): (r: Result<(Table<User>, User)>)
    ensures FindOrFail(table, id).Failure? ==> r == Failure(NotFound)
    ensures FindOrFail(table, id).Success? ==>
      (r.Failure? <==> ChangesEmail(FindOrFail(table, id).value, data) && EmailTaken(table, data.email.value))
    ensures r.Failure? ==> r.error in {NotFound, Conflict}
    ensures r.Success? ==>
      var t := r.value.0;
      && |t.rows| == |table.rows| && t.nextId == table.nextId
      && (forall i :: 0 <= i < |table.rows| && table.rows[i].id != id ==> t.rows[i] == table.rows[i])
      && (forall i :: 0 <= i < |table.rows| && table.rows[i].id == id ==>
            var (was, now) := (table.rows[i], t.rows[i]);
            && now.id == id && now.deletedAt == was.deletedAt && now.createdAt == was.createdAt
            && now.name == data.name.GetOr(was.name)
            && now.email == data.email.GetOr(was.email)
            && now.avatar == (if data.avatar.Some? then data.avatar else was.avatar)
            && now.username == (if data.username.Some? then data.username else was.username)
            && now.password == (if Truthy(data.password) then hash(data.password.value) else was.password))
  {
    var user :- FindOrFail(table, id);
    var _ :- if ChangesEmail(user, data) then ValidateEmailUniqueness(table, data.email.value) else Success(());
    Repo.Update(table, id, PatchOf(data, hash))
  }

  /** `delete`: NotFound for a missing or already deleted id, otherwise a
      soft delete of that row. */
  function Delete(table: Table<User>, id: int, now: int): (r: Result<Table<User>>)
    ensures r.Failure? <==> FindOrFail(table, id).Failure?
    ensures r.Failure? ==> r.error == NotFound
    ensures r.Success? ==>
      && |r.value.rows| == |table.rows| && r.value.nextId == table.nextId
      && (forall i :: 0 <= i < |table.rows| && table.rows[i].id != id ==> r.value.rows[i] == table.rows[i])
      && (forall i :: 0 <= i < |table.rows| && table.rows[i].id == id ==> r.value.rows[i] == table.rows[i].(deletedAt := Some(now)))
  {
    var _ :- FindOrFail(table, id);
    match Repo.Delete(table, id, now)
    case Success((t, _)) => Success(t)
    case Failure(e) => Failure(e)
  }

  /** Under unique ids, the user found by id is the only row carrying it. */
  lemma OnlyRowWithId(table: Table<User>, u: User)
    requires IdsWellFormed(table, UserId)
    requires u in table.rows
    ensures forall i :: 0 <= i < |table.rows| && table.rows[i].id == u.id ==> table.rows[i] == u
  {
    var k :| 0 <= k < |table.rows| && table.rows[k] == u;
    forall i | 0 <= i < |table.rows| && table.rows[i].id == u.id
      ensures table.rows[i] == u
    {
    }
  }

  /** Rewriting rows without touching ids keeps the ids well formed. */
  lemma SameIdsWellFormed(table: Table<User>, t: Table<User>)
    requires IdsWellFormed(table, UserId)
    requires |t.rows| == |table.rows| && t.nextId == table.nextId
    requires forall i :: 0 <= i < |t.rows| ==> t.rows[i].id == table.rows[i].id
    ensures IdsWellFormed(t, UserId)
  {
  }

  /** Rewriting row `k` keeps live emails distinct when the row keeps its
      email or takes one no other live row has, and no row comes back to life. */
  lemma RewriteRowUnique(table: Table<User>, t: Table<User>, k: int)
    requires UniqueActiveEmails(table)
    requires 0 <= k < |table.rows| == |t.rows|
    requires forall i :: 0 <= i < |t.rows| && i != k ==> t.rows[i] == table.rows[i]
    requires t.rows[k].deletedAt.None? ==> table.rows[k].deletedAt.None?
    requires t.rows[k].email == table.rows[k].email || !EmailTaken(table, t.rows[k].email)
    ensures UniqueActiveEmails(t)
  {
    forall i, j | 0 <= i < j < |t.rows| && t.rows[i].deletedAt.None? && t.rows[j].deletedAt.None?
      ensures t.rows[i].email != t.rows[j].email
    {
      assert table.rows[i].deletedAt.None? && table.rows[j].deletedAt.None?;
    }
  }

  /** Under unique ids, a rewrite of the rows carrying `id` leaves every row
      but the one found untouched. */
  lemma OnlyFoundRowRewritten(table: Table<User>, t: Table<User>, id: int, k: int)
    requires IdsWellFormed(table, UserId)
    requires 0 <= k < |table.rows| == |t.rows| && table.rows[k].id == id
    requires forall i :: 0 <= i < |table.rows| && table.rows[i].id != id ==> t.rows[i] == table.rows[i]
    ensures forall i :: 0 <= i < |t.rows| && i != k ==> t.rows[i] == table.rows[i]
  {
    forall i | 0 <= i < |t.rows| && i != k ensures t.rows[i] == table.rows[i] {
      assert table.rows[i].id != table.rows[k].id;
    }
  }

  /** Rows that are live afterwards and were left as they were keep live
      emails distinct. */
  lemma RetireKeepsUnique(table: Table<User>, t: Table<User>)
    requires UniqueActiveEmails(table)
    requires |t.rows| == |table.rows|
    requires forall i :: 0 <= i < |t.rows| && t.rows[i].deletedAt.None? ==> t.rows[i] == table.rows[i]
    ensures UniqueActiveEmails(t)
  {
  }

  /** Rewriting the one row found under `id`, keeping its id and deletion
      mark and taking an email no live user has, keeps the invariant. */
  lemma RewriteFoundRowValid(table: Table<User>, t: Table<User>, id: int, k: int)
    requires Valid(table)
    requires 0 <= k < |table.rows| == |t.rows| && t.nextId == table.nextId && table.rows[k].id == id
    requires forall i :: 0 <= i < |table.rows| && table.rows[i].id != id ==> t.rows[i] == table.rows[i]
    requires t.rows[k].id == id && t.rows[k].deletedAt == table.rows[k].deletedAt
    requires t.rows[k].email == table.rows[k].email || !EmailTaken(table, t.rows[k].email)
    ensures Valid(t)
  {
    OnlyFoundRowRewritten(table, t, id, k);
    SameIdsWellFormed(table, t);
    RewriteRowUnique(table, t, k);
  }

  /** Marking the rows under `id` deleted and leaving the rest keeps the
      invariant. */
  lemma SoftDeleteValid(table: Table<User>, t: Table<User>, id: int, now: int)
    requires Valid(table)
    requires |t.rows| == |table.rows| && t.nextId == table.nextId
    requires forall i :: 0 <= i < |table.rows| && table.rows[i].id != id ==> t.rows[i] == table.rows[i]
    requires forall i :: 0 <= i < |table.rows| && table.rows[i].id == id ==> t.rows[i] == table.rows[i].(deletedAt := Some(now))
    ensures Valid(t)
  {
    SameIdsWellFormed(table, t);
    RetireKeepsUnique(table, t);
  }

  /** `create` keeps ids unique and the emails of live users distinct. */
  lemma CreatePreservesValid(table: Table<User>, data: CreateUserData, hash: string -> string, now: int)
    requires Valid(table)
    ensures Create(table, data, hash, now).Success? ==> Valid(Create(table, data, hash, now).value.0)
  {
    var r := Create(table, data, hash, now);
    if r.Success? {
      var (t, u) := r.value;
      var _ := Repo.Create(table, Repo.NewUser(data.name, data.avatar, data.email, data.username, hash(data.password)), now);
      forall i, j | 0 <= i < j < |t.rows| && t.rows[i].deletedAt.None? && t.rows[j].deletedAt.None?
        ensures t.rows[i].email != t.rows[j].email
      {
        assert t.rows[i] == table.rows[i];
      }
    }
  }

  /** `update` keeps the invariant whenever the email it is given is not the
      empty string; the DTO's email format check rules that value out. */
  lemma UpdatePreservesValid(table: Table<User>, id: int, data: UpdateUserData, hash: string -> string)
    requires Valid(table)
    requires data.email != Some("")
    ensures Update(table, id, data, hash).Success? ==> Valid(Update(table, id, data, hash).value.0)
  {
    var r := Update(table, id, data, hash);
    if r.Success? {
      var t := r.value.0;
      var user := FindOrFail(table, id).value;
      var k :| 0 <= k < |table.rows| && table.rows[k] == user;
      RewriteFoundRowValid(table, t, id, k);
    }
  }

  /** `delete` keeps the invariant: it only retires a live user. */
  lemma DeletePreservesValid(table: Table<User>, id: int, now: int)
    requires Valid(table)
    ensures Delete(table, id, now).Success? ==> Valid(Delete(table, id, now).value)
  {
    var r := Delete(table, id, now);
    if r.Success? {
      var t := r.value;
      SoftDeleteValid(table, t, id, now);
    }
  }

  /** After a delete, the same id is NotFound. */
  lemma DeleteThenFindFails(table: Table<User>, id: int, now: int)
    ensures Delete(table, id, now).Success? ==> FindOrFail(Delete(table, id, now).value, id) == Failure(NotFound)
  {
    var r := Delete(table, id, now);
    if r.Success? {
      var t := r.value;
      forall i | 0 <= i < |t.rows|
        ensures t.rows[i].id != id || t.rows[i].deletedAt.Some?
      {
        if table.rows[i].id == id {
          assert t.rows[i].deletedAt == Some(now);
        }
      }
    }
  }

  /** After a delete, the deleted user's email can be registered again. */
  lemma DeleteFreesEmail(table: Table<User>, id: int, now: int, data: CreateUserData, hash: string -> string, later: int)
    requires Valid(table)
    requires FindOrFail(table, id).Success?
    requires data.email == FindOrFail(table, id).value.email
    ensures Delete(table, id, now).Success?
    ensures Create(Delete(table, id, now).value, data, hash, later).Success?
  {
    var user := FindOrFail(table, id).value;
    var t := Delete(table, id, now).value;
    OnlyRowWithId(table, user);
    var k :| 0 <= k < |table.rows| && table.rows[k] == user;
    forall i | 0 <= i < |t.rows| && t.rows[i].email == data.email
      ensures t.rows[i].deletedAt.Some?
    {
      assert table.rows[i].id != id ==> t.rows[i] == table.rows[i] && i != k;
    }
  }

  /** A query that passed validation always yields a page size between 1
      and 100 and a current page of at least 1. */
  lemma ValidatedQueryBounds(table: Table<User>, raw: RawListQuery, requestUrl: Option<string>)
    requires ValidateUsersQuery(raw).Some?
    ensures 1 <= GetAllPaginated(table, ValidateUsersQuery(raw).value, requestUrl).meta.itemsPerPage <= 100
    ensures GetAllPaginated(table, ValidateUsersQuery(raw).value, requestUrl).meta.currentPage >= 1
  {
  }
}
