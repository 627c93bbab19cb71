/** `ModuleSeeder`: makes sure the `users`, `roles` and `permissions`
    modules exist, creating each missing one with no icon and `order` 0. */
module ModuleSeeder {
  import opened Wrappers
  import opened Schema
  import opened Seeding

  function SlugOf(m: Module): string {
    m.slug
  }

  /** `create` gives the template its auto-increment id. */
  function Stamp(m: Module, id: int): Module {
    m.(id := id)
  }

  /** The three modules to seed; `icon: null ?? undefined` leaves the column
      at its default, null. */
  const Templates: seq<Module> := [
    Module(0, "Users", "users", None, 0),
    Module(0, "Roles", "roles", None, 0),
    Module(0, "Permissions", "permissions", None, 0)
  ]

  /** The seeded module with this slug, as created. */
  predicate IsTemplateRow(m: Module) {
    && m.icon.None? && m.order == 0
    && ((m.name, m.slug) == ("Users", "users") || (m.name, m.slug) == ("Roles", "roles") || (m.name, m.slug) == ("Permissions", "permissions"))
  }

  lemma StampOk()
    ensures StampKeepsSlug(SlugOf, Stamp, Templates)
  {
    forall k, id | 0 <= k < |Templates| ensures SlugOf(Stamp(Templates[k], id)) == SlugOf(Templates[k]) {
    }
  }

  /** One run: never modifies or deletes a row, adds at most three. */
  function Run(t: Table<Module>): (r: Table<Module>)
    ensures |t.rows| <= |r.rows| <= |t.rows| + 3 && r.rows[..|t.rows|] == t.rows
  {
    SeedAll(t, SlugOf, Stamp, Templates)
  }

  /** Afterwards the three modules exist. */
  lemma RunCovers(t: Table<Module>)
    ensures HasSlug(Run(t).rows, SlugOf, "users") && HasSlug(Run(t).rows, SlugOf, "roles") && HasSlug(Run(t).rows, SlugOf, "permissions")
  {
    StampOk();
    SeedAllCovers(t, SlugOf, Stamp, Templates);
    assert SlugOf(Templates[0]) == "users" && SlugOf(Templates[1]) == "roles" && SlugOf(Templates[2]) == "permissions";
  }

  /** Every created row is one of the three, with no icon, `order` 0 and the
      next id. */
  lemma RunCreates(t: Table<Module>)
    ensures forall i :: |t.rows| <= i < |Run(t).rows| ==> IsTemplateRow(Run(t).rows[i]) && Run(t).rows[i].id == t.nextId + (i - |t.rows|)
  {
    SeedAllAdds(t, SlugOf, Stamp, Templates);
    forall i | |t.rows| <= i < |Run(t).rows|
      ensures IsTemplateRow(Run(t).rows[i]) && Run(t).rows[i].id == t.nextId + (i - |t.rows|)
    {
      var k :| 0 <= k < |Templates| && Run(t).rows[i] == Stamp(Templates[k], t.nextId + (i - |t.rows|));
    }
  }

  /** When all three slugs are present, the run writes nothing. */
  lemma PresentNoWrite(t: Table<Module>)
    requires HasSlug(t.rows, SlugOf, "users") && HasSlug(t.rows, SlugOf, "roles") && HasSlug(t.rows, SlugOf, "permissions")
    ensures Run(t) == t
  {
    SeedAllNoop(t, SlugOf, Stamp, Templates);
  }

  /** Running the seeder twice is running it once. */
  lemma RunIdempotent(t: Table<Module>)
    ensures Run(Run(t)) == Run(t)
  {
    RunCovers(t);
    PresentNoWrite(Run(t));
  }
}
