/** `DatabaseSeeder`: `main` runs the module, user, role and permission
    seeders in that order. The user seeder is a parameter (`seedUsers`); the
    permission seeder sees the modules the module seeder left behind. */
module DatabaseSeeder {
  import opened Schema
  import opened Seeding
  import ModuleSeeder
  import RoleSeeder
  import PermissionSeeder

  /** The four tables the seeders write. */
  datatype Db = Db(modules: Table<Module>, users: Table<User>, roles: Table<Role>, permissions: Table<Permission>)

  /** `main`. No seeder deletes or modifies a module or role, and no
      permission row disappears or changes owner. */
  function Run(db: Db, seedUsers: Table<User> -> Table<User>, now: int): (r: Db)
    ensures |db.modules.rows| <= |r.modules.rows| && r.modules.rows[..|db.modules.rows|] == db.modules.rows
    ensures |db.roles.rows| <= |r.roles.rows| && r.roles.rows[..|db.roles.rows|] == db.roles.rows
    ensures |db.permissions.rows| <= |r.permissions.rows|
    ensures forall i :: 0 <= i < |db.permissions.rows| ==>
      r.permissions.rows[i].id == db.permissions.rows[i].id && r.permissions.rows[i].moduleId == db.permissions.rows[i].moduleId
    ensures r.users == seedUsers(db.users)
  {
    var modules := ModuleSeeder.Run(db.modules);
    var users := seedUsers(db.users);
    var roles := RoleSeeder.Run(db.roles, now);
    var permissions := PermissionSeeder.Run(db.permissions, modules.rows);
    Db(modules, users, roles, permissions)
  }

  /** The module with this slug has all four `<action>-<slug>` permissions. */
  predicate FullyPermitted(db: Db, slug: string) {
    exists i :: 0 <= i < |db.modules.rows| && db.modules.rows[i].slug == slug &&
      forall k :: 0 <= k < |PermissionSeeder.Actions| ==>
        PermissionSeeder.HasPermission(db.permissions.rows,
          PermissionSeeder.CombinedSlug(PermissionSeeder.Actions[k], db.modules.rows[i]), db.modules.rows[i].id)
  }

  lemma FullyPermittedIfPresent(db: Db, modules: Table<Module>, slug: string)
    requires db.modules == modules && HasSlug(modules.rows, ModuleSeeder.SlugOf, slug)
    requires forall j, k :: 0 <= j < |modules.rows| && 0 <= k < |PermissionSeeder.Actions| ==>
      PermissionSeeder.HasPermission(db.permissions.rows,
        PermissionSeeder.CombinedSlug(PermissionSeeder.Actions[k], modules.rows[j]), modules.rows[j].id)
    ensures FullyPermitted(db, slug)
  {
    var i :| 0 <= i < |modules.rows| && ModuleSeeder.SlugOf(modules.rows[i]) == slug;
  }

  /** After `main`, the `users`, `roles` and `permissions` modules each have
      all four permissions, and the `admin` and `user` roles exist. */
  lemma RunSeedsEverything(db: Db, seedUsers: Table<User> -> Table<User>, now: int)
    ensures FullyPermitted(Run(db, seedUsers, now), "users")
    ensures FullyPermitted(Run(db, seedUsers, now), "roles")
    ensures FullyPermitted(Run(db, seedUsers, now), "permissions")
    ensures HasSlug(Run(db, seedUsers, now).roles.rows, RoleSeeder.SlugOf, "admin")
    ensures HasSlug(Run(db, seedUsers, now).roles.rows, RoleSeeder.SlugOf, "user")
  {
    var r := Run(db, seedUsers, now);
    ModuleSeeder.RunCovers(db.modules);
    RoleSeeder.RunCovers(db.roles, now);
    PermissionSeeder.RunComplete(db.permissions, r.modules.rows);
    FullyPermittedIfPresent(r, r.modules, "users");
    FullyPermittedIfPresent(r, r.modules, "roles");
    FullyPermittedIfPresent(r, r.modules, "permissions");
  }

  /** Running `main` again adds no module, role or permission. */
  lemma RerunAddsNothing(db: Db, seedUsers: Table<User> -> Table<User>, now: int, later: int)
    ensures
      var once := Run(db, seedUsers, now);
      var twice := Run(once, seedUsers, later);
      twice.modules == once.modules && twice.roles == once.roles && twice.permissions == once.permissions
  {
    var once := Run(db, seedUsers, now);
    ModuleSeeder.RunIdempotent(db.modules);
    RoleSeeder.RunIdempotent(db.roles, now, later);
    PermissionSeeder.RunIdempotent(db.permissions, once.modules.rows);
  }
}
