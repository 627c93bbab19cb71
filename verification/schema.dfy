/** The stored records of the four tables and the in-memory store that stands
    in for the database. Timestamps are plain integers (a clock reading). */
module Schema {
  import opened Wrappers

  /** A user row. `password` holds the hash; `deletedAt` marks a soft delete. */
  datatype User = User(
    id: int,
    name: string,
    avatar: Option<string>,
    email: string,
    username: Option<string>,
    password: string,
    createdAt: int,
    updatedAt: int,
    deletedAt: Option<int>)

  datatype Role = Role(id: int, name: string, slug: string, description: string, createdAt: int, updatedAt: int)

  /** A permission bucket ("Users", "Roles", ...), shown in `order`. */
  datatype Module = Module(id: int, name: string, slug: string, icon: Option<string>, order: int)

  datatype Permission = Permission(id: int, name: string, slug: string, description: string, moduleId: int)

  /** One table: its rows in storage order and the next auto-increment id.
      Ids are never reused, also after a hard delete. */
  datatype Table<T> = Table(rows: seq<T>, nextId: int)

  /** Appends a row; the caller gives it the id `t.nextId`. */
  function Append<T>(t: Table<T>, row: T): (r: Table<T>)
    ensures r.rows == t.rows + [row] && r.nextId == t.nextId + 1
  {
    Table(t.rows + [row], t.nextId + 1)
  }

  /** Ids are unique and below the next auto-increment value. */
  ghost predicate IdsWellFormed<T>(t: Table<T>, id: T -> int) {
    && (forall i :: 0 <= i < |t.rows| ==> id(t.rows[i]) < t.nextId)
    && (forall i, j :: 0 <= i < j < |t.rows| ==> id(t.rows[i]) != id(t.rows[j]))
  }

  function UserId(u: User): int { u.id }
  function RoleId(r: Role): int { r.id }
  function ModuleId(m: Module): int { m.id }
  function PermissionId(p: Permission): int { p.id }
}
