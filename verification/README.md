# A verified model of the nestjs-starter-kit core

This project models in Dafny the logic of a small NestJS + Prisma backend. The backend manages users, roles and a permission catalogue grouped into modules. The database is replaced by an in-memory store: one `Table<T>` per entity, holding its rows in storage order and the next auto-increment id. Every operation becomes a pure function from the store (and its inputs) to a result, with the source's exceptions as a `Result` (`NotFound`, `Conflict`, `RecordMissing`).

Modelled components:

- **Pagination engine** (`Paginate`, `prismaPaginate`):
  - coercion of `page` and `limit`;
  - the count, `totalPages` and the clamped page;
  - the `skip`/`take` window of rows;
  - the `first`/`prev`/`next`/`last` links and their `?`/`&` separator.

  Proved properties include the window bounds, the partition of the matching rows by the pages `1..totalPages`, the existence condition of each link, and the page and limit each link carries (links are parsed back).
- **Listing** (`Listing`, `Ordering`, `Collections`):
  - the `where` filter and the optional `orderBy`, shared by the count and the fetch;
  - `orderBy` is a verified insertion sort on the sorted column;
  - a case-sensitive substring test stands in for `contains`.
- **Repositories and services**:
  - users (`UsersRepository`, `UsersService`): soft delete, the email-uniqueness rule and hashed passwords;
  - roles (`RolesRepository`, `RolesService`): hard delete;
  - permissions (`PermissionsRepository`, `PermissionsService`): the grouping by module.

  The services keep an invariant on the user table: ids are unique and below the next id, and no two users that are not soft-deleted share an email.
- **Seeders**:
  - the check-before-insert loop (`Seeding`) used by the module and role seeders;
  - the permission seeder's module × action loop, with its skip, legacy-rename and create branches;
  - the database seeder's `main` sequencing.

  Proved properties are completeness, idempotence, the format of the rows written, and that untouched rows stay untouched.
- **Helpers**:
  - the request context's `getUrl`/`getPath` on an explicit request;
  - the user and role resource projections;
  - the list-query DTO validation;
  - the 422 validation-error formatter.

Deviations from the source, and where the model follows the code:

- The list search combines its fields with AND: a row must contain the term in both `name` and `email` (roles: `name` and `slug`). The model follows the code, not a reading where any one field suffices. `UsersRepository.SearchIsConjunctive` exhibits a user whose name matches but who is not listed.
- The lookup-by-id names do not match across layers:
  - `UsersService.find`/`findOrFail` call `usersRepository.find`, but the repository defines `findById`;
  - `RolesService.getById` calls `rolesRepository.findById`, but the repository defines `find`.

  The model has one lookup per entity (`UsersRepository.FindById`, `RolesRepository.Find`), and the services call it.
- `src/prisma/seeders/ModuleSeeder.ts` and `prisma/seeders/ModuleSeeder.ts` differ only in how they obtain the client. One `ModuleSeeder` module models both.
- A negative limit cannot pass the DTO validation. Still, the engine accepts one, so it is modelled as the store reads a negative `take`: the last `-limit` rows. `Math.ceil` is written out for both signs.
- The store's clock and the password hash are parameters (`now`, `hash`). The current request is a parameter (`requestUrl`, `req`). The user seeder is a parameter (`seedUsers`).

## Model

| member | source | states |
|---|---|---|
| Paginate.EffectiveLimit | src/prisma/prisma.paginate.ts:38 | a missing, NaN or zero limit becomes 10; any other limit is kept; the result is never zero |
| Paginate.CeilDiv | src/prisma/prisma.paginate.ts:45 | `Math.ceil(a / b)` characterised by its bracket `(r - 1) * b < a <= r * b` (mirrored for a negative divisor); zero exactly when there are no rows |
| Paginate.ClampPage | src/prisma/prisma.paginate.ts:46-47 | the served page lies in `[1, max(totalPages, 1)]`, equals the requested page when that is in range, is 1 below the range and the last page above it |
| Paginate.Window | src/prisma/prisma.paginate.ts:51-55 | `findMany({ skip, take })` returns at most `take` rows; the slice from `skip` for a non-negative take; the last `-take` rows for a negative take |
| Paginate.Paginate | src/prisma/prisma.paginate.ts:36-76 | `totalItems` counts the matching rows; `itemsPerPage` is the coerced limit; `totalPages` is the unclamped ceiling; `currentPage` is the clamped request; `data` is the window `[(page - 1) * limit, page * limit)` of the matching rows, and `itemCount` is its length; the links are built on `options.route ?? requestUrl` |
| Paginate.PageItems | src/prisma/prisma.paginate.ts:49-55 | for a clamped page the offset `(page - 1) * limit` lies within the rows, and the rows fetched are the contiguous run starting there |
| Paginate.PageSize | src/prisma/prisma.paginate.ts:54 | a page never holds more rows than the limit asks for |
| Paginate.SkipInRange | src/prisma/prisma.paginate.ts:45-49 | the clamped page's offset is non-negative and never past the last row |
| Paginate.Separator | src/prisma/prisma.paginate.ts:57 | the separator is `&` exactly when the route already contains `?`, otherwise `?` |
| Paginate.LinkRoundTrip | src/prisma/prisma.paginate.ts:58-59 | a link `route + sep + "page=" + n + "&limit=" + l` is read back as exactly page `n` and limit `l` |
| Paginate.LinksForTargets | src/prisma/prisma.paginate.ts:70-75 | `first`/`last` exist iff there are rows and a non-empty route; `prev` iff the page is above 1; `next` iff the page is below `totalPages`; they point to pages 1, `totalPages`, `page - 1` and `page + 1` with the same limit |
| Paginate.LinkTargets | src/prisma/prisma.paginate.ts:71-74 | the existence conditions of the four links of a paginated result |
| Paginate.EmptyResult | src/prisma/prisma.paginate.ts:45-47 | with no matching rows: no data, zero pages, page 1 and all four links null |
| Paginate.PagesPartition | src/prisma/prisma.paginate.ts:41-55 | the pages `1..totalPages` served by the engine, laid end to end, are exactly the matching rows, each row once and in order |
| Paginate.PageDataInRange | src/prisma/prisma.paginate.ts:49-55 | page `k + 1`, when in range, is served as asked: rows `[k * limit, min((k + 1) * limit, total))` |
| Paginate.MiddlePageExample | src/prisma/prisma.paginate.ts:37-75 | 25 rows, limit 10, page 2: rows 10..19, meta `(10, 25, 10, 3, 2)`, and `prev`/`next` pointing to pages 1 and 3 |
| Text.ContainsChar | src/prisma/prisma.paginate.ts:57 | `includes` of a one-character string is membership of that character |
| Text.IntRoundTrip | src/prisma/prisma.paginate.ts:59 | the decimal rendering of an integer in a link parses back to that integer |
| Text.IntToStringChars | src/prisma/prisma.paginate.ts:59 | a rendered integer is digits and an optional minus sign, so it contains neither `&` nor `?` |
| Text.IntToStringInjective | src/prisma/prisma.paginate.ts:59 | distinct integers render to distinct strings |
| Text.BeforeFirst | src/common/request.context.ts:25 | `split('?')[0]` is the longest prefix free of `?`: it stops at the first `?`, or is the whole string when there is none |
| Text.BeforeFirstUnique | src/common/request.context.ts:25 | any prefix that avoids the separator and stops at one, or at the end, is the value of `split(c)[0]` |
| RequestContext.GetPath | src/common/request.context.ts:15-18 | the request's path, and null exactly when there is no request |
| RequestContext.GetUrl | src/common/request.context.ts:20-27 | a URL exactly when there is a request with a non-empty host, null otherwise; the URL is `protocol + "://" + host + p`, with `p` the part of `originalUrl` before its first `?` (all of it when there is none) |
| RequestContext.RequestUrlLinksUseQuestionMark | src/common/request.context.ts:20-26 | when neither the protocol nor the host contains `?`, links built on the request URL use the `?` separator |
| Collections.Filter | src/modules/acl/permissions/repositories/permissions.repository.ts:57 | the kept elements are from the input and pass the test, and every passing element is kept |
| Collections.FilterCount | src/modules/acl/permissions/repositories/permissions.repository.ts:56-57 | a filter keeps every passing element exactly as often as it occurs and drops every other element |
| Collections.FirstIndex | src/modules/users/repositories/users.repository.ts:92 | `findFirst` without an order finds the earliest matching row, and finds none only when no row matches |
| Collections.FilterPositions | src/modules/acl/permissions/repositories/permissions.repository.ts:44-51 | a filter keeps exactly the elements at the accepted positions, in increasing position order: storage order survives the selection |
| Ordering.SortBy | src/modules/users/repositories/users.repository.ts:48-51 | `orderBy` returns a permutation of the rows, sorted on the column in the requested direction |
| Listing.Select | src/modules/users/repositories/users.repository.ts:70-82 | the rows fetched are a permutation of the rows the `where` accepts, sorted when an `orderBy` is given |
| Listing.FilterSorted | src/modules/acl/permissions/repositories/permissions.repository.ts:53-57 | filtering a sorted sequence keeps it sorted |
| Listing.PageOfSelection | src/modules/users/repositories/users.repository.ts:70-82 | any page of the selection holds only accepted table rows, in the requested order |
| Listing.ListPage | src/modules/users/repositories/users.repository.ts:70-82 | one filter serves the count and the fetch: the result is the engine's page over the accepted rows in the requested order (count, ceiling of pages, clamped page, the window of rows at that page's offset, and the four links); the page holds accepted rows in order |
| Store.UpdateById | src/modules/acl/roles/repositories/roles.repository.ts:109-111 | `update({ where: { id } })` rewrites only the rows with that id and returns the rewritten row; it fails with RecordMissing exactly when no row has the id |
| Store.DeleteById | src/modules/acl/roles/repositories/roles.repository.ts:119-121 | `delete({ where: { id } })` keeps exactly the rows with another id, returns the removed row, and fails when there is none; ids are not reused |
| Store.DeleteRemovesOnlyKey | src/modules/acl/roles/repositories/roles.repository.ts:119-121 | after a delete no row carries the id, every other row is still there, and the table is shorter |
| ListQuery.ParseDirection | src/modules/users/dto/list-users.dto.ts:27-30 | `asc` and `desc` are the only accepted sort orders, and they map to the two directions |
| ListQuery.Validate | src/modules/users/dto/list-users.dto.ts:4-31 | a query is accepted iff `page` is an integer of at least 1, `limit` an integer in `[1, 100]`, `sortBy` allow-listed and `sortOrder` `asc`/`desc`, each when present; accepted values pass through unchanged |
| ListUsersDto.ParseSortField | src/modules/users/dto/list-users.dto.ts:22-25 | the users `sortBy` allow-list is exactly `name`, `email`, `createdAt`, `updatedAt` |
| ListUsersDto.ValidateUsersQuery | src/modules/users/dto/list-users.dto.ts:4-31 | the user list query's acceptance condition; an accepted limit lies in `[1, 100]` and an accepted page is at least 1 |
| ListUsersDto.EmptyUsersQueryValid | src/modules/users/dto/list-users.dto.ts:4-31 | every field is optional: the empty query is accepted |
| ListRolesDto.ParseSortField | src/modules/acl/roles/dto/list-roles.dto.ts:22-25 | the roles `sortBy` allow-list is exactly `name`, `slug`, `createdAt`, `updatedAt` |
| ListRolesDto.ValidateRolesQuery | src/modules/acl/roles/dto/list-roles.dto.ts:4-31 | the role list query's acceptance condition, with the same bounds as for users |
| ListRolesDto.EmptyRolesQueryValid | src/modules/acl/roles/dto/list-roles.dto.ts:4-31 | every field is optional: the empty query is accepted |
| UsersRepository.GetQuery | src/modules/users/repositories/users.repository.ts:22-54 | page defaults to 1 and limit to 10; the `where` holds exactly for users who are not soft-deleted and, under a non-empty search, contain the term in both name and email; `orderBy` is present iff `sortBy` is, with direction defaulting to `desc` |
| UsersRepository.SearchIsConjunctive | src/modules/users/repositories/users.repository.ts:40-45 | a user whose name contains the term but whose email does not is not listed |
| UsersRepository.FindAllPaginated | src/modules/users/repositories/users.repository.ts:62-83 | the result serves page `page ?? 1` with limit `limit ?? 10` over the listed users (not soft-deleted, both fields containing the search term) sorted on the chosen column, descending by default: the total counts them and the data is the window at the served page; the page holds only listed users; `first` exists iff there are users and a route (`options.route`, otherwise the request URL) |
| UsersRepository.FindById | src/modules/users/repositories/users.repository.ts:91-93 | a user with this id who is not soft-deleted, and null exactly when there is none |
| UsersRepository.FindByEmail | src/modules/users/repositories/users.repository.ts:101-103 | a user with this email who is not soft-deleted, and null exactly when there is none |
| UsersRepository.Create | src/modules/users/repositories/users.repository.ts:111-113 | appends one user under the next id carrying the given fields, not deleted; the ids stay well formed |
| UsersRepository.ApplyPatch | src/modules/users/repositories/users.repository.ts:122-124 | a patch writes the fields it carries and leaves every other column as it was |
| UsersRepository.Update | src/modules/users/repositories/users.repository.ts:122-124 | only the row with this id changes, by the patch; fails exactly when no row has the id |
| UsersRepository.Delete | src/modules/users/repositories/users.repository.ts:132-137 | a soft delete: the row stays and only its `deletedAt` is set; every other row is unchanged |
| UsersService.GetAllPaginated | src/modules/users/services/users.service.ts:24-37 | page 1 and limit 10 unless given, so without a page the first page is served; the result serves that page over the listed users in the requested order, with links on the request URL |
| UsersService.ValidatedQueryBounds | src/modules/users/services/users.service.ts:27-36 | after DTO validation the page size is in `[1, 100]` and the current page is at least 1 |
| UsersService.FindOrFail | src/modules/users/services/users.service.ts:55-64 | the live user with this id, or NotFound exactly when there is none |
| UsersService.FindByEmail | src/modules/users/services/users.service.ts:72-81 | the live user with this email, or NotFound instead of null |
| UsersService.ValidateEmailUniqueness | src/modules/users/services/users.service.ts:154-160 | Conflict exactly when a user who is not soft-deleted has the email |
| UsersService.Create | src/modules/users/services/users.service.ts:89-103 | Conflict, with no write, exactly when the email is taken; otherwise a new row with the given fields and the hash of the password, never the plaintext |
| UsersService.PatchOf | src/modules/users/services/users.service.ts:120-133 | the patch carries the given fields, and a password only when one is given, as its hash |
| UsersService.Update | src/modules/users/services/users.service.ts:112-134 | NotFound before any change for a missing or deleted id; Conflict exactly when a different, non-empty email is taken; otherwise only that row changes, in the given fields, with the password hashed |
| UsersService.Delete | src/modules/users/services/users.service.ts:142-145 | NotFound for a missing or deleted id; otherwise only that row's `deletedAt` is set |
| UsersService.CreatePreservesValid | src/modules/users/services/users.service.ts:89-103 | `create` keeps ids unique and live emails distinct |
| UsersService.UpdatePreservesValid | src/modules/users/services/users.service.ts:112-134 | `update` keeps ids unique and live emails distinct |
| UsersService.DeletePreservesValid | src/modules/users/services/users.service.ts:142-145 | `delete` keeps ids unique and live emails distinct |
| UsersService.DeleteThenFindFails | src/modules/users/services/users.service.ts:142-145 | after a delete the same id is NotFound |
| UsersService.DeleteFreesEmail | src/modules/users/services/users.service.ts:142-159 | after a user is deleted, a new user with the same email can be created |
| RolesRepository.GetQuery | src/modules/acl/roles/repositories/roles.repository.ts:20-51 | page defaults to 1 and limit to 10; with no soft-delete filter, the `where` holds exactly for roles whose name and slug both contain a non-empty search term; `orderBy` defaults its direction to `desc` |
| RolesRepository.NoSearchListsAll | src/modules/acl/roles/repositories/roles.repository.ts:36-43 | without a search term every role is listed |
| RolesRepository.FindAllPaginated | src/modules/acl/roles/repositories/roles.repository.ts:59-80 | the result serves page `page ?? 1` with limit `limit ?? 10` over the listed roles (name and slug containing the search term) sorted on the chosen column, descending by default: the total counts them and the data is the window at the served page; `first` exists iff there are roles and a route |
| RolesRepository.Find | src/modules/acl/roles/repositories/roles.repository.ts:88-90 | a role with this id, and null exactly when there is none |
| RolesRepository.Create | src/modules/acl/roles/repositories/roles.repository.ts:98-100 | appends exactly one row under the next id with the given fields |
| RolesRepository.ApplyPatch | src/modules/acl/roles/repositories/roles.repository.ts:109-111 | a patch writes the fields it carries and leaves the others |
| RolesRepository.Update | src/modules/acl/roles/repositories/roles.repository.ts:109-111 | only the row with this id changes; RecordMissing exactly when there is none |
| RolesRepository.Delete | src/modules/acl/roles/repositories/roles.repository.ts:119-121 | a hard delete: exactly the other rows remain, in order |
| RolesService.GetAllPaginated | src/modules/acl/roles/services/roles.service.ts:19-32 | page 1 and limit 10 unless given, so without a page the first page is served; the result serves that page over the listed roles in the requested order, with links on the request URL |
| RolesService.GetById | src/modules/acl/roles/services/roles.service.ts:41-47 | the role with this id, or NotFound exactly when there is none |
| RolesService.Create | src/modules/acl/roles/services/roles.service.ts:55-61 | name, slug and description are stored as given, under the next id |
| RolesService.CreateThenGet | src/modules/acl/roles/services/roles.service.ts:41-61 | a role just created is found by `getById` under its new id |
| RolesService.Update | src/modules/acl/roles/services/roles.service.ts:71-78 | NotFound before any change for a missing id; otherwise only that row changes, and absent fields keep their values |
| RolesService.Delete | src/modules/acl/roles/services/roles.service.ts:87-90 | NotFound for a missing id; otherwise the row is removed and the rest kept |
| RolesService.DeleteThenGetFails | src/modules/acl/roles/services/roles.service.ts:87-90 | after a delete the same id is NotFound |
| RolesService.DeleteKeepsOthers | src/modules/acl/roles/services/roles.service.ts:87-90 | a delete leaves `getById` of every other id as it was |
| PermissionsRepository.View | src/modules/acl/permissions/repositories/permissions.repository.ts:45-50 | the grouping selects id, name, slug and description of a permission |
| PermissionsRepository.FindById | src/modules/acl/permissions/repositories/permissions.repository.ts:18-20 | a permission with this id, and null exactly when there is none |
| PermissionsRepository.GetAll | src/modules/acl/permissions/repositories/permissions.repository.ts:27-29 | every permission row, in storage order |
| PermissionsRepository.PermissionsOf | src/modules/acl/permissions/repositories/permissions.repository.ts:44-51 | a module's nested permissions are the selected columns of every permission it owns, each once, in storage order; non-empty exactly when it owns one |
| PermissionsRepository.FindGroupedByModule | src/modules/acl/permissions/repositories/permissions.repository.ts:36-62 | every group is non-empty and holds exactly its module's permissions; groups ascend by `order`; the modules kept are exactly the stored modules that own a permission |
| PermissionsRepository.KeptModules | src/modules/acl/permissions/repositories/permissions.repository.ts:53-57 | filtering the modules after ordering keeps them in ascending `order` and keeps exactly those that own a permission |
| PermissionsRepository.GroupedModuleCount | src/modules/acl/permissions/repositories/permissions.repository.ts:56-61 | a module that owns a permission appears as often as it is stored; a module that owns none does not appear |
| PermissionsRepository.NoPermissionsNoGroups | src/modules/acl/permissions/repositories/permissions.repository.ts:56-61 | when no module owns a permission, the grouping is empty |
| PermissionsService.GetAll | src/modules/acl/permissions/services/permissions.service.ts:17-19 | returns the repository's rows unchanged: every permission |
| PermissionsService.GetPermissionsWithModule | src/modules/acl/permissions/services/permissions.service.ts:26-28 | the repository's grouping: each group holds exactly its module's permissions and at least one, by ascending `order`, and the modules kept are exactly the stored modules owning a permission, as often as stored |
| PermissionsService.GetById | src/modules/acl/permissions/services/permissions.service.ts:36-44 | the repository's permission unchanged, or NotFound when it returns null |
| Seeding.SeedOne | src/prisma/seeders/RoleSeeder.ts:18-20 | no write when the slug is present; otherwise exactly one new row under the next id |
| Seeding.SeedAll | src/prisma/seeders/RoleSeeder.ts:17-22 | the loop never modifies or deletes a row and adds at most one row per template |
| Seeding.SeedAllAdds | src/prisma/seeders/ModuleSeeder.ts:10-22 | every added row is a template under the id it was created with |
| Seeding.SeedAllCovers | src/prisma/seeders/ModuleSeeder.ts:10-22 | afterwards every template's slug is present |
| Seeding.SeedAllNoop | src/prisma/seeders/ModuleSeeder.ts:11-12 | when every template's slug is present, the loop writes nothing |
| Seeding.SeedAllIdempotent | src/prisma/seeders/RoleSeeder.ts:17-22 | running the loop twice is running it once |
| ModuleSeeder.Run | src/prisma/seeders/ModuleSeeder.ts:10-22 | one run never modifies or deletes a module and adds at most three |
| ModuleSeeder.RunCovers | prisma/seeders/ModuleSeeder.ts:4-22 | afterwards the `users`, `roles` and `permissions` modules exist |
| ModuleSeeder.RunCreates | src/prisma/seeders/ModuleSeeder.ts:13-20 | every created module is one of the three, with no icon, `order` 0 and the next id |
| ModuleSeeder.PresentNoWrite | prisma/seeders/ModuleSeeder.ts:11-12 | when the three slugs are present, the run writes nothing |
| ModuleSeeder.RunIdempotent | src/prisma/seeders/ModuleSeeder.ts:10-22 | running the seeder twice is running it once |
| RoleSeeder.Run | src/prisma/seeders/RoleSeeder.ts:17-22 | one run never modifies or deletes a role and adds at most two |
| RoleSeeder.RunCovers | src/prisma/seeders/RoleSeeder.ts:4-22 | afterwards the `admin` and `user` roles exist |
| RoleSeeder.RunCreates | src/prisma/seeders/RoleSeeder.ts:4-20 | every created role carries exactly a listed name, slug and description |
| RoleSeeder.PresentNoWrite | src/prisma/seeders/RoleSeeder.ts:18-19 | when both slugs are present, the run writes nothing |
| RoleSeeder.RunIdempotent | src/prisma/seeders/RoleSeeder.ts:17-22 | a second run, at any time, writes nothing |
| PermissionSeeder.Steps | src/prisma/seeders/PermissionSeeder.ts:13-14 | the iterations are every module with each of the four actions, modules outer and actions inner |
| PermissionSeeder.SeedStep | src/prisma/seeders/PermissionSeeder.ts:15-45 | a present combined slug causes no write; otherwise the first legacy row (bare action slug, same module) alone is renamed in place, keeping its id, with no row added; with neither, exactly one row is created under the next id; afterwards the combined-slug permission exists; only a legacy row of this iteration can change |
| PermissionSeeder.SeedSteps | src/prisma/seeders/PermissionSeeder.ts:13-47 | the loop adds at most one row per iteration and keeps every existing row's id and module |
| PermissionSeeder.Run | src/prisma/seeders/PermissionSeeder.ts:3-47 | no row is deleted or moves to another module, and at most `4 * modules` rows are added |
| PermissionSeeder.UntouchedRows | src/prisma/seeders/PermissionSeeder.ts:23-35 | a row whose slug no iteration may migrate is never changed |
| PermissionSeeder.RowsWritten | src/prisma/seeders/PermissionSeeder.ts:28-44 | every added or changed row is written as some iteration writes it |
| PermissionSeeder.Completeness | src/prisma/seeders/PermissionSeeder.ts:13-47 | afterwards every iteration's combined-slug permission exists |
| PermissionSeeder.KeepsAlong | src/prisma/seeders/PermissionSeeder.ts:16-21 | a combined-slug permission already present stays present |
| PermissionSeeder.NoopWhenCovered | src/prisma/seeders/PermissionSeeder.ts:16-21 | when every iteration's permission exists, the loop writes nothing |
| PermissionSeeder.RunComplete | src/prisma/seeders/PermissionSeeder.ts:6-46 | after a run every module has `<action>-<module slug>` for all four actions |
| PermissionSeeder.RunKeepsOtherRows | src/prisma/seeders/PermissionSeeder.ts:13-47 | rows whose slug is not a bare action slug, combined-slug rows included, are never changed |
| PermissionSeeder.RunWritesFormat | src/prisma/seeders/PermissionSeeder.ts:31-41 | a created or migrated row is named `"<module> <action>"`, described `"<action> <module>"`, has slug `<action>-<module slug>` and belongs to that module |
| PermissionSeeder.StepKeepsReady | src/prisma/seeders/PermissionSeeder.ts:15-35 | an iteration for another module or action keeps an iteration's combined-slug permission or legacy row in place |
| PermissionSeeder.MigratesInPlace | src/prisma/seeders/PermissionSeeder.ts:13-47 | when every iteration finds its permission or a legacy row, and no two iterations share a module and action, the loop adds no row and uses no id |
| PermissionSeeder.StepsDistinct | src/prisma/seeders/PermissionSeeder.ts:6-14 | over modules with distinct ids, no two iterations share a module id and an action slug |
| PermissionSeeder.RunMigratesInPlace | src/prisma/seeders/PermissionSeeder.ts:13-47 | over modules with distinct ids (their primary keys), a run over a table holding, for every module and action, the combined-slug permission or a legacy row renames the legacy rows in place instead of adding duplicates: no row is added and the next id is unchanged |
| PermissionSeeder.RunIdempotent | src/prisma/seeders/PermissionSeeder.ts:13-47 | running the seeder twice over the same modules is running it once |
| DatabaseSeeder.Run | src/prisma/seeders/DatabaseSeeder.ts:9-21 | no seeder deletes or modifies a module or role, no permission disappears or changes owner, and the users are what the user seeder makes of them |
| DatabaseSeeder.RunSeedsEverything | src/prisma/seeders/DatabaseSeeder.ts:9-21 | after `main` the `users`, `roles` and `permissions` modules have all four permissions, and the `admin` and `user` roles exist |
| DatabaseSeeder.RerunAddsNothing | src/prisma/seeders/DatabaseSeeder.ts:9-21 | running `main` again changes no module, role or permission |
| UserResource.ToResource | src/modules/users/resources/user.resource.ts:4-13 | the seven public fields are copied unchanged; the password and the deletion mark are absent |
| UserResource.ResourceDeterminedByPublicFields | src/modules/users/resources/user.resource.ts:4-13 | two users have the same resource exactly when their public fields agree |
| UserResource.ResourceIdempotent | src/modules/users/resources/user.resource.ts:4-13 | the projection is idempotent |
| UserResource.ToCollection | src/modules/users/resources/user.resource.ts:16-18 | same length, element `i` is the resource of user `i`, and no element carries private fields |
| UserResource.CollectionAppend | src/modules/users/resources/user.resource.ts:16-18 | the collection projection distributes over concatenation |
| RoleResource.ToResource | src/modules/acl/roles/resources/role.resource.ts:4-13 | the six fields are copied unchanged |
| RoleResource.ResourceIsIdentity | src/modules/acl/roles/resources/role.resource.ts:4-13 | a role's resource is the role itself, so the projection is idempotent |
| RoleResource.ToCollection | src/modules/acl/roles/resources/role.resource.ts:15-17 | same length, and element `i` is the resource of role `i` |
| RoleResource.CollectionIsIdentity | src/modules/acl/roles/resources/role.resource.ts:15-17 | a collection of roles is shown as stored, in order |
| ValidationFilter.Messages | src/common/filters/ValidationFilter.ts:13 | an error's messages in insertion order; none when it has no constraints |
| ValidationFilter.ErrorFormatter | src/common/filters/ValidationFilter.ts:10-16 | the keys of the formatted map are exactly the failed properties |
| ValidationFilter.LastErrorWins | src/common/filters/ValidationFilter.ts:12-13 | each property maps to the messages of its last error: a later error overwrites an earlier one |
| ValidationFilter.ResponseBody | src/common/filters/ValidationFilter.ts:17-30 | status 422, the formatted errors, and the translation of `validation.invalid_data` or the fallback `The given data was invalid` |
| ValidationFilter.FilterBody | src/common/filters/ValidationFilter.ts:8-31 | end to end: a 422 body with one entry per failed property, holding its last error's messages |

## Left out

- Controllers, module wiring, bootstrap and configuration (`main.ts`, `app.module.ts`, `*.module.ts`, `src/config`): HTTP routing, dependency injection, CORS and server start-up are framework glue.
- `RequestContext.run` and the async-local storage behind it are per-request concurrency machinery. The current request is passed explicitly instead.
- Concurrency in general. The email-uniqueness check is check-then-act and can race with a concurrent request; the model is sequential. It also assumes that no write lands between the count and the fetch of a listing.
- Prisma itself:
  - `contains` is a case-sensitive substring test, and database collation is not modelled;
  - without `orderBy` the store's order is unspecified, and table order stands in;
  - rows with equal sort keys come out in an order the model picks, which SQL does not fix;
  - unique constraints of the database schema are not modelled.
- bcrypt is a parameter `hash`, with no salt, cost factor or verification.
- The user seeder relies on a database unique constraint that is not visible. It is a parameter of `DatabaseSeeder.Run`.
- `prisma/seeders/DatabaseSeeder.ts` and `prisma/seed.ts` are not part of this model. Neither is the process exit and disconnect around `main`.
- Timestamps are a `now` parameter. `@updatedAt` is not bumped on update, because the schema that declares it is not visible.
- `update-role.dto.ts` is not part of this model. A role update takes three optional fields, as `roles.service.ts` reads them.
- The create and update DTOs for users and roles are not modelled as validators. The library's `IsEmail` predicate in particular is not.
- Fractional numbers:
  - the pagination engine takes integers, and a missing value or NaN is `None`;
  - the list-query DTO alone keeps real numbers, to state `@IsInt`.
- `Object.values` lists integer-like keys first in ascending order. The formatter keeps insertion order, which matches for the constraint names the validator uses. A `__proto__` property name is not special-cased.
- `http-exception.filter.ts` and `validation.exception.ts` build an envelope and write it to the HTTP response. That is I/O.
- `UsersService.find`: it forwards to the lookup by id. It is not a separate member; `UsersRepository.FindById` is that lookup.
- UsersService.UpdatePreservesValid: requires that the patch's email is not the empty string. The service skips the uniqueness check for a falsy email but still writes it, so two users could both end up with `""`. The DTO's email format check rejects `""` before the service runs.
- `PermissionsRepository.Group.owner` is the module without its nested `permissions` array. In the source, each group's `module` is the selected module object, which still carries that array; the same permissions are the group's `permissions` field.
- The seeders' `console.log` progress lines (`DatabaseSeeder.ts`, `ModuleSeeder.ts`, `RoleSeeder.ts`, `PermissionSeeder.ts`) are console output, not modelled.
- PermissionsRepository.GroupedModuleCount: states that a module appears as often as it is stored. It appears exactly once only under unique module ids, which the store does not enforce for the module table.
