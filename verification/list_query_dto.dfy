/** The list query shared by the user and role listings (`search`, `page`,
    `limit`, `sortBy`, `sortOrder`) and its validation rules. */
module ListQuery {
  import opened Wrappers
  import opened Ordering

  /** A query-string value after the `Number(...)` transform: NaN, or a
      finite number. */
  datatype Num = NaN | Finite(value: real)

  /** The query as it arrives, every field optional. */
  datatype RawListQuery = RawListQuery(
    search: Option<string>,
    page: Option<Num>,
    limit: Option<Num>,
    sortBy: Option<string>,
    sortOrder: Option<string>)

  /** The validated query; `F` is the entity's sortable-field type. */
  datatype ListQuery<F> = ListQuery(
    search: Option<string>,
    page: Option<int>,
    limit: Option<int>,
    sortBy: Option<F>,
    sortOrder: Option<Direction>)

  /** `@IsInt()`. */
  predicate IsInt(n: Num) {
    n.Finite? && n.value.Floor as real == n.value
  }

  /** `@IsOptional() @IsInt() @Min(1)`. */
  predicate PageValid(page: Option<Num>) {
    page.None? || (IsInt(page.value) && page.value.value >= 1.0)
  }

  /** `@IsOptional() @IsInt() @Min(1) @Max(100)`. */
  predicate LimitValid(limit: Option<Num>) {
    limit.None? || (IsInt(limit.value) && 1.0 <= limit.value.value <= 100.0)
  }

  /** `@IsOptional() @IsIn(['asc', 'desc'])`. */
  predicate SortOrderValid(order: Option<string>) {
    order.None? || order.value in {"asc", "desc"}
  }

  function ParseDirection(s: string): (d: Option<Direction>)
    ensures d == Some(Asc) <==> s == "asc"
    ensures d == Some(Desc) <==> s == "desc"
  {
    if s == "asc" then Some(Asc) else if s == "desc" then Some(Desc) else None
  }

  /** An integer-valued number as an integer. */
  function AsInt(n: Option<Num>): (r: Option<int>)
    requires n.Some? ==> IsInt(n.value)
    ensures r.Some? <==> n.Some?
    ensures r.Some? ==> r.value as real == n.value.value
  {
    match n
    case None => None
    case Some(x) => Some(x.value.Floor)
  }

  /** Validates and converts a raw query; `field` reads the entity's
      `sortBy` allow-list. `None` stands for the 422 rejection. */
  function Validate<F>(raw: RawListQuery, field: string -> Option<F>): (r: Option<ListQuery<F>>)
    ensures r.Some? <==>
      && PageValid(raw.page)
      && LimitValid(raw.limit)
      && (raw.sortBy.None? || field(raw.sortBy.value).Some?)
      && SortOrderValid(raw.sortOrder)
    ensures r.Some? ==>
      && r.value.search == raw.search
      && (r.value.page.Some? <==> raw.page.Some?)
      && (r.value.page.Some? ==> r.value.page.value >= 1 && r.value.page.value as real == raw.page.value.value)
      && (r.value.limit.Some? <==> raw.limit.Some?)
      && (r.value.limit.Some? ==> 1 <= r.value.limit.value <= 100 && r.value.limit.value as real == raw.limit.value.value)
      && (r.value.sortBy.Some? <==> raw.sortBy.Some?)
      && (r.value.sortBy.Some? ==> r.value.sortBy == field(raw.sortBy.value))
      && (r.value.sortOrder.Some? <==> raw.sortOrder.Some?)
      && (r.value.sortOrder.Some? ==> r.value.sortOrder == ParseDirection(raw.sortOrder.value))
  {
    if PageValid(raw.page) && LimitValid(raw.limit)
      && (raw.sortBy.None? || field(raw.sortBy.value).Some?)
      && SortOrderValid(raw.sortOrder)
    then
      Some(ListQuery(
        raw.search,
        AsInt(raw.page),
        AsInt(raw.limit),
        if raw.sortBy.Some? then field(raw.sortBy.value) else None,
        if raw.sortOrder.Some? then ParseDirection(raw.sortOrder.value) else None))
    else None
  }
}

/** `ListUsersQueryDto`. */
module ListUsersDto {
  import opened Wrappers
  import opened ListQuery

  datatype UserSortField = Name | Email | CreatedAt | UpdatedAt

  /** The `sortBy` allow-list. */
  function ParseSortField(s: string): (f: Option<UserSortField>)
    ensures f.Some? <==> s in {"name", "email", "createdAt", "updatedAt"}
  {
    if s == "name" then Some(Name)
    else if s == "email" then Some(Email)
    else if s == "createdAt" then Some(CreatedAt)
    else if s == "updatedAt" then Some(UpdatedAt)
    else None
  }

  function ValidateUsersQuery(raw: RawListQuery): (r: Option<ListQuery<UserSortField>>)
    ensures r.Some? <==>
      && PageValid(raw.page)
      && LimitValid(raw.limit)
      && (raw.sortBy.None? || raw.sortBy.value in {"name", "email", "createdAt", "updatedAt"})
      && SortOrderValid(raw.sortOrder)
    ensures r.Some? && r.value.limit.Some? ==> 1 <= r.value.limit.value <= 100
    ensures r.Some? && r.value.page.Some? ==> r.value.page.value >= 1
  {
    Validate(raw, ParseSortField)
  }

  /** Every field is optional: the empty query is valid and carries nothing. */
  lemma EmptyUsersQueryValid()
    ensures ValidateUsersQuery(RawListQuery(None, None, None, None, None)) == Some(ListQuery(None, None, None, None, None))
  {
  }
}

/** `ListRolesQueryDto`: as for users, with `slug` sortable instead of `email`. */
module ListRolesDto {
  import opened Wrappers
  import opened ListQuery

  datatype RoleSortField = Name | Slug | CreatedAt | UpdatedAt

  function ParseSortField(s: string): (f: Option<RoleSortField>)
    ensures f.Some? <==> s in {"name", "slug", "createdAt", "updatedAt"}
  {
    if s == "name" then Some(Name)
    else if s == "slug" then Some(Slug)
    else if s == "createdAt" then Some(CreatedAt)
    else if s == "updatedAt" then Some(UpdatedAt)
    else None
  }

  function ValidateRolesQuery(raw: RawListQuery): (r: Option<ListQuery<RoleSortField>>)
    ensures r.Some? <==>
      && PageValid(raw.page)
      && LimitValid(raw.limit)
      && (raw.sortBy.None? || raw.sortBy.value in {"name", "slug", "createdAt", "updatedAt"})
      && SortOrderValid(raw.sortOrder)
    ensures r.Some? && r.value.limit.Some? ==> 1 <= r.value.limit.value <= 100
    ensures r.Some? && r.value.page.Some? ==> r.value.page.value >= 1
  {
    Validate(raw, ParseSortField)
  }

  lemma EmptyRolesQueryValid()
    ensures ValidateRolesQuery(RawListQuery(None, None, None, None, None)) == Some(ListQuery(None, None, None, None, None))
  {
  }
}
